/** The global handle storage (`EcmaGlobalStorage` of ecma_global_storage.h): pools of normal,
    cross-reference and weak handles, the list of handles that may refer to young objects, and the
    blocks of the normal pool whose deletion is deferred to the end of a collection. */
module GlobalStorage {
  import opened Basics
  import opened HandleBlock
  import opened HandlePool
  import HandleIteration

  type Flags = map<NodeList, seq<Node>>

  /** The young list holds exactly the handles whose flag is set, each once. */
  ghost predicate ListedInv(flags: Flags, young: seq<Handle>) {
    && Distinct(young)
    && (forall h :: h in young ==>
          h.0 in flags && h.1 < |flags[h.0]| && flags[h.0][h.1].isInYoungList)
    && (forall b, i: nat :: b in flags && i < |flags[b]| && flags[b][i].isInYoungList ==> (b, i) in young)
  }

  ghost predicate Unflagged(nodes: seq<Node>) {
    forall i: nat :: i < |nodes| ==> !nodes[i].isInYoungList
  }

  ghost predicate SameFlags(before: seq<Node>, after: seq<Node>) {
    && |after| == |before|
    && forall i: nat :: i < |before| ==> after[i].isInYoungList == before[i].isInYoungList
  }

  lemma KeptFlags(before: seq<Node>, after: seq<Node>, slot: nat)
    requires OthersKept(before, after, slot)
    ensures SameFlags(before, after)
  {
  }

  lemma KeptUnflagged(before: seq<Node>, after: seq<Node>, slot: nat)
    requires OthersKept(before, after, slot) && Unflagged(before)
    ensures Unflagged(after)
  {
  }

  lemma KeepUnflagged(nodes: seq<Node>)
    ensures (forall i: nat :: i < |nodes| ==> !nodes[i].isInYoungList) ==> Unflagged(nodes)
  {
  }

  lemma Grown(s: seq<NodeList>, b: NodeList)
    requires Distinct(s) && b !in s
    ensures Distinct(s + [b])
    ensures forall x :: x in s + [b] ==> x in s || x == b
    ensures forall x :: x in s ==> x in s + [b]
    ensures b in s + [b]
  {
  }

  lemma ListedSame(flags: Flags, young: seq<Handle>, b: NodeList, nodes: seq<Node>)
    requires ListedInv(flags, young)
    requires b in flags ==> SameFlags(flags[b], nodes)
    requires b !in flags ==> Unflagged(nodes)
    ensures ListedInv(flags[b := nodes], young)
  {
    hide Distinct;
  }

  lemma ListedNone(flags: Flags, b: NodeList)
    requires flags.Keys == {b} && Unflagged(flags[b])
    ensures ListedInv(flags, [])
  {
  }

  lemma ListedAdd(flags: Flags, young: seq<Handle>, h: Handle)
    requires ListedInv(flags, young) && h.0 in flags && h.1 < |flags[h.0]| && !flags[h.0][h.1].isInYoungList
    ensures var nodes := flags[h.0];
            ListedInv(flags[h.0 := nodes[h.1 := nodes[h.1].(isInYoungList := true)]], young + [h])
  {
    var young' := young + [h];
    assert h !in young;
    assert forall x :: x in young' ==> x in young || x == h;
    assert young'[|young|] == h;
    assert forall x :: x in young ==> x in young';
    assert Distinct(young');
    hide Distinct;
  }

  /** Clearing the flag of one listed handle takes exactly that handle off the list. */
  lemma ListedRemove(flags: Flags, young: seq<Handle>, k: nat)
    requires ListedInv(flags, young) && k < |young|
    ensures young[k].0 in flags && young[k].1 < |flags[young[k].0]|
    ensures var h := young[k];
            var nodes := flags[h.0];
            ListedInv(flags[h.0 := nodes[h.1 := nodes[h.1].(isInYoungList := false)]], RemoveAt(young, k))
  {
    var h := young[k];
    assert h in young;
    RemoveAtIn(young, k);
    hide RemoveAt, Distinct;
    var nodes := flags[h.0];
    var flags': Flags := flags[h.0 := nodes[h.1 := nodes[h.1].(isInYoungList := false)]];
    forall x | x in RemoveAt(young, k)
      ensures x.0 in flags' && x.1 < |flags'[x.0]| && flags'[x.0][x.1].isInYoungList
    {
      assert x in young && x != h && (x.0 != h.0 || x.1 != h.1);
    }
  }

  lemma RemoveFirst<T>(s: seq<T>, i: nat)
    requires i < |s|
    ensures RemoveAt(s[i..], 0) == s[i + 1..]
  {
  }

  /** The two steps of an in-place compaction, seen from outside. */
  lemma Dropped<T>(s: seq<T>, index: nat, i: nat)
    requires index <= i < |s|
    ensures RemoveAt(s[..index] + s[i..], index) == s[..index] + s[i + 1..]
    ensures s[index := s[i]][..index + 1] == s[..index] + [s[i]]
    ensures s[index := s[i]][..index + 1] + s[index := s[i]][i + 1..] == s[..index] + s[i..]
    ensures s[index := s[i]][i + 1..] == s[i + 1..]
  {
  }

  lemma ListedShrink(flags: Flags, young: seq<Handle>, gone: set<NodeList>)
    requires ListedInv(flags, young) && forall h :: h in young ==> h.0 !in gone
    ensures ListedInv(flags - gone, young)
  {
    hide Distinct;
  }

  /** `DisposeGlobalHandleInner` for the pools that delete a block they give up at once. */
  method DisposeAndDelete(pool: Pool, h: Handle)
    requires pool.Valid() && h in pool.live && pool.repr <= pool.allocator.outstanding
    requires forall b :: b in pool.repr ==> Unflagged(b.nodes)
    modifies pool, pool.repr, pool.allocator`outstanding
    ensures pool.Valid() && pool.live == old(pool.live) - {h} && pool.peak == old(pool.peak)
    ensures HandleIteration.Released(pool, old(pool.repr), old(pool.allocator.outstanding))
    ensures forall b :: b in pool.repr ==> Unflagged(b.nodes)
  {
    hide Pool.Valid, NodeList.Valid, OthersKept, Unflagged;
    pool.LiveFacts(h);
    pool.ReprIsChain();
    var removed := pool.Dispose(h);
    KeptUnflagged(old(h.0.nodes), h.0.nodes, h.1);
    if removed != null {
      pool.allocator.Delete(removed);
    }
  }

  class EcmaGlobalStorage {
    const allocator: NativeAreaAllocator
    const normal: Pool
    const xref: Pool
    const weak: Pool
    var young: seq<Handle>
    var toBeDeleted: seq<NodeList>
    ghost var deferred: set<NodeList>
    /** The addresses that lie in young regions: allocation adds some, collections take some away. */
    var youngSpace: set<int>

    predicate IsYoung(value: Value)
      reads this`youngSpace
    {
      value.HeapObject? && value.address in youngSpace
    }

    ghost predicate PoolsValid()
      reads normal, xref, weak, normal.repr, xref.repr, weak.repr
    {
      && normal.Valid() && xref.Valid() && weak.Valid()
      && !normal.weak && !xref.weak && weak.weak
      && normal != xref && normal != weak && xref != weak
      && normal.allocator == xref.allocator == weak.allocator == allocator
    }

    /** The pools and the deferred blocks share no memory. */
    ghost predicate Separate()
      reads this`toBeDeleted, this`deferred, normal`repr, xref`repr, weak`repr
    {
      && normal.repr !! xref.repr !! weak.repr !! deferred
      && Distinct(toBeDeleted)
      && (forall b :: b in toBeDeleted ==> b in deferred)
      && (forall b :: b in deferred ==> b in toBeDeleted)
    }

    /** Blocks whose deletion is deferred hold no live handle. */
    ghost predicate DeferredValid()
      reads this`deferred, deferred
    {
      forall b :: b in deferred ==> b.Valid() && !b.deleted && b.used == []
    }

    ghost function FlagView(): Flags
      reads this`deferred, normal`repr, normal.repr`nodes, deferred`nodes
    {
      map b | b in normal.repr + deferred :: b.nodes
    }

    ghost predicate OthersUnflagged()
      reads xref`repr, weak`repr, xref.repr`nodes, weak.repr`nodes
    {
      && (forall b :: b in xref.repr ==> Unflagged(b.nodes))
      && (forall b :: b in weak.repr ==> Unflagged(b.nodes))
    }

    /** Every live normal handle to a young object is on the young list. */
    ghost predicate Covered()
      reads this`young, this`youngSpace, normal`live
    {
      forall h :: h in normal.live && IsYoung(normal.live[h]) ==> h in young
    }

    /** All but the coverage of young objects, with `list` as the young list. */
    ghost predicate SoundFor(list: seq<Handle>)
      reads this`toBeDeleted, this`deferred
      reads normal, xref, weak, normal.repr, xref.repr, weak.repr, deferred
    {
      && PoolsValid() && Separate() && DeferredValid()
      && ListedInv(FlagView(), list) && OthersUnflagged()
    }

    ghost predicate Sound()
      reads this`toBeDeleted, this`deferred, this`young
      reads normal, xref, weak, normal.repr, xref.repr, weak.repr, deferred
    {
      SoundFor(young)
    }

    /** Every block the allocator ever gave out is in a pool, deferred, or deleted. */
    ghost predicate Owned()
      reads this`deferred, normal`repr, xref`repr, weak`repr, allocator, allocator.issued`deleted
    {
      && allocator.outstanding == normal.repr + xref.repr + weak.repr + deferred
      && allocator.outstanding <= allocator.issued
      && forall b :: b in allocator.issued && b !in allocator.outstanding ==> b.deleted
    }

    ghost predicate Valid()
      reads this, normal, xref, weak, normal.repr, xref.repr, weak.repr, deferred, allocator, allocator.issued`deleted
    {
      Sound() && Covered() && Owned()
    }

    constructor ()
      ensures Valid() && normal.live == map[] && xref.live == map[] && weak.live == map[]
      ensures young == [] && toBeDeleted == [] && youngSpace == {} && normal.peak == xref.peak == weak.peak == 0
      ensures fresh(allocator) && allocator.issued == allocator.outstanding
      ensures fresh(normal) && fresh(xref) && fresh(weak) && fresh(normal.repr + xref.repr + weak.repr + deferred)
    {
      hide Pool.Valid, ListedInv;
      var blocks := new NativeAreaAllocator();
      allocator := blocks;
      normal := new Pool(blocks, false);
      xref := new Pool(blocks, false);
      weak := new Pool(blocks, true);
      young, toBeDeleted, deferred, youngSpace := [], [], {}, {};
      new;
      ListedNone(FlagView(), normal.chain[0]);
    }

    method TakeNormal(value: Value) returns (h: Handle)
      requires Sound()
      modifies normal, normal.repr, allocator
      ensures allocator.issued == old(allocator.issued) + (normal.repr - old(normal.repr))
      ensures allocator.outstanding == old(allocator.outstanding) + (normal.repr - old(normal.repr))
      ensures PoolsValid() && Separate() && DeferredValid() && OthersUnflagged()
      ensures ListedInv(old(FlagView())[h.0 := h.0.nodes], young)
      ensures normal.repr == old(normal.repr) + {h.0} && fresh(normal.repr - old(normal.repr))
      ensures forall b :: b in old(normal.repr) && b != h.0 ==> b.nodes == old(b.nodes)
      ensures h !in old(normal.live) && normal.live == old(normal.live)[h := value]
      ensures normal.peak == Max(old(normal.peak), |normal.live|)
    {
      hide Pool.Valid, NodeList.Valid, ListedInv, Distinct, OthersKept;
      ghost var flags := FlagView();
      normal.ReprIsChain();
      h := normal.New(value);
      normal.ReprIsChain();
      if h.0 in old(normal.repr) {
        KeptFlags(old(h.0.nodes), h.0.nodes, h.1);
      }
      ListedSame(flags, young, h.0, h.0.nodes);
    }

    method AllocateNormal(value: Value) returns (h: Handle)
      requires Sound()
      modifies normal, normal.repr, allocator
      ensures allocator.issued == old(allocator.issued) + (normal.repr - old(normal.repr))
      ensures allocator.outstanding == old(allocator.outstanding) + (normal.repr - old(normal.repr))
      ensures Sound() && fresh(normal.repr - old(normal.repr)) && old(normal.repr) <= normal.repr
      ensures h !in old(normal.live) && normal.live == old(normal.live)[h := value]
      ensures normal.peak == Max(old(normal.peak), |normal.live|)
    {
      hide PoolsValid, ListedInv, Distinct, DeferredValid, OthersUnflagged;
      ghost var flags := FlagView();
      h := TakeNormal(value);
      assert FlagView() == flags[h.0 := h.0.nodes];
    }

    ghost predicate CoveredExcept(h: Handle)
      reads this`young, this`youngSpace, normal`live
    {
      forall x :: x in normal.live && x != h && IsYoung(normal.live[x]) ==> x in young
    }

    lemma NormalHandle(h: Handle)
      requires Sound() && h in normal.live
      ensures h.0 in normal.repr && h.0 in normal.chain && h.1 < |h.0.nodes|
      ensures h.0.nodes[h.1].isInYoungList <==> h in young
      ensures h.0.Valid() && !h.0.deleted
    {
      hide Pool.Valid, NodeList.Valid, Distinct;
      normal.LiveFacts(h);
      normal.ReprIsChain();
      assert FlagView()[h.0] == h.0.nodes;
      assert h == (h.0, h.1);
    }

    /** `Node::SetInYoungList` on a node of the normal pool or of a deferred block. */
    method SetFlag(h: Handle, flag: bool)
      requires PoolsValid() && Separate() && DeferredValid() && h.1 < |h.0.nodes|
      requires h.0 in normal.repr + deferred && h.0.Valid() && !h.0.deleted
      modifies h.0`nodes
      ensures PoolsValid() && DeferredValid()
      ensures h.0.nodes == old(h.0.nodes)[h.1 := old(h.0.nodes)[h.1].(isInYoungList := flag)]
    {
      hide NodeList.Valid, PoolInv, Distinct, Pool.LinksValid, Pool.FreeLinksValid;
      ghost var view := normal.View();
      h.0.SetInYoungList(h.1, flag);
      if h.0 in normal.repr {
        assert normal.View() == view[h.0 := SummaryOf(h.0)];
        normal.FlagChanged(view, h, flag);
      }
    }

    method ListYoung(h: Handle)
      requires Sound() && h in normal.live && h !in young
      modifies this`young, h.0`nodes
      ensures Sound() && young == old(young) + [h]
    {
      hide Pool.Valid, NodeList.Valid, ListedInv, Distinct;
      ghost var flags := FlagView();
      NormalHandle(h);
      ListedAdd(flags, young, h);
      young := young + [h];
      SetFlag(h, true);
      assert FlagView() == flags[h.0 := h.0.nodes];
    }

    method CheckAndAddToYoungGlobalNodes(h: Handle, value: Value)
      requires Sound() && Owned() && CoveredExcept(h) && h in normal.live && normal.live[h] == value
      modifies this`young, h.0`nodes
      ensures Valid()
      ensures young == if IsYoung(value) && h !in old(young) then old(young) + [h] else old(young)
    {
      hide Sound;
      NormalHandle(h);
      if IsYoung(value) && !h.0.NodeAt(h.1).isInYoungList {
        ListYoung(h);
      }
    }

    /** `NewGlobalHandle<NORMAL_NODE>`. */
    method NewGlobalHandle(value: Value) returns (h: Handle)
      requires Valid()
      modifies this`young, normal, normal.repr, allocator
      ensures Valid() && fresh(normal.repr - old(normal.repr)) && old(normal.repr) <= normal.repr
      ensures h !in old(normal.live) && normal.live == old(normal.live)[h := value]
      ensures young == if IsYoung(value) && h !in old(young) then old(young) + [h] else old(young)
      ensures normal.peak == Max(old(normal.peak), |normal.live|)
      ensures xref.live == old(xref.live) && weak.live == old(weak.live)
      ensures xref.peak == old(xref.peak) && weak.peak == old(weak.peak)
    {
      hide Sound;
      PoolsDiffer();
      h := AllocateNormal(value);
      NormalHandle(h);
      CheckAndAddToYoungGlobalNodes(h, value);
    }

    method AllocateWeak(value: Value) returns (h: Handle)
      requires Sound()
      modifies weak, weak.repr, allocator
      ensures allocator.issued == old(allocator.issued) + (weak.repr - old(weak.repr))
      ensures allocator.outstanding == old(allocator.outstanding) + (weak.repr - old(weak.repr))
      ensures Sound() && fresh(weak.repr - old(weak.repr)) && old(weak.repr) <= weak.repr
      ensures h !in old(weak.live) && weak.live == old(weak.live)[h := value]
      ensures weak.peak == Max(old(weak.peak), |weak.live|)
    {
      hide Pool.Valid, NodeList.Valid, ListedInv, Distinct, OthersKept, Unflagged;
      weak.ReprIsChain();
      h := weak.New(value);
      weak.ReprIsChain();
      KeepUnflagged(h.0.nodes);
      if h.0 in old(weak.repr) {
        KeptUnflagged(old(h.0.nodes), h.0.nodes, h.1);
      }
    }

    /** `NewGlobalHandle<UNIFIED_NODE>`. */
    method NewUnifiedHandle(value: Value) returns (h: Handle)
      requires Valid()
      modifies xref, xref.repr, allocator
      ensures Valid() && fresh(xref.repr - old(xref.repr))
      ensures h !in old(xref.live) && xref.live == old(xref.live)[h := value]
      ensures xref.peak == Max(old(xref.peak), |xref.live|)
      ensures normal.live == old(normal.live) && weak.live == old(weak.live)
      ensures normal.peak == old(normal.peak) && weak.peak == old(weak.peak)
    {
      hide Pool.Valid, NodeList.Valid, ListedInv, Distinct, OthersKept, Unflagged;
      PoolsDiffer();
      xref.ReprIsChain();
      h := xref.New(value);
      xref.ReprIsChain();
      KeepUnflagged(h.0.nodes);
      if h.0 in old(xref.repr) {
        KeptUnflagged(old(h.0.nodes), h.0.nodes, h.1);
      }
    }

    method DropNormal(h: Handle) returns (removed: NodeList?)
      requires Sound() && h in normal.live
      modifies normal, normal.repr
      ensures PoolsValid() && Separate() && DeferredValid() && OthersUnflagged()
      ensures h.0 in old(normal.repr) && ListedInv(old(FlagView())[h.0 := h.0.nodes], young)
      ensures normal.live == old(normal.live) - {h} && normal.peak == old(normal.peak)
      ensures normal.repr == if removed == null then old(normal.repr) else old(normal.repr) - {h.0}
      ensures removed != null ==> removed == h.0 && h.0.Valid() && !h.0.deleted && h.0.used == []
      ensures forall b :: b in old(normal.repr) && b != h.0 ==> b.nodes == old(b.nodes)
    {
      hide Pool.Valid, NodeList.Valid, ListedInv, Distinct, OthersKept;
      ghost var flags := FlagView();
      normal.LiveFacts(h);
      normal.ReprIsChain();
      removed := normal.Dispose(h);
      KeptFlags(old(h.0.nodes), h.0.nodes, h.1);
      ListedSame(flags, young, h.0, h.0.nodes);
    }

    method Defer(block: NodeList)
      requires Separate() && DeferredValid() && block !in normal.repr + xref.repr + weak.repr + deferred
      requires block.Valid() && !block.deleted && block.used == []
      modifies this`toBeDeleted, this`deferred
      ensures Separate() && DeferredValid() && deferred == old(deferred) + {block}
    {
      hide NodeList.Valid, Distinct;
      Grown(toBeDeleted, block);
      toBeDeleted := toBeDeleted + [block];
      deferred := deferred + {block};
    }

    /** The normal pool defers the deletion of a block it gives up. */
    method DisposeNormal(h: Handle)
      requires Sound() && h in normal.live
      modifies this`toBeDeleted, this`deferred, normal, normal.repr
      ensures Sound() && normal.live == old(normal.live) - {h} && normal.repr <= old(normal.repr)
      ensures forall b :: b in old(normal.repr) && b !in normal.repr ==> b in toBeDeleted
      ensures normal.repr + deferred == old(normal.repr + deferred) && normal.peak == old(normal.peak)
    {
      hide PoolsValid, NodeList.Valid, ListedInv, Distinct, DeferredValid, OthersUnflagged;
      ghost var flags := FlagView();
      var removed := DropNormal(h);
      if removed != null {
        Defer(removed);
      }
      assert FlagView() == flags[h.0 := h.0.nodes];
    }

    /** The weak pool deletes a block it gives up at once. */
    method DisposeWeak(h: Handle)
      requires Sound() && h in weak.live && weak.repr <= allocator.outstanding
      modifies weak, weak.repr, allocator`outstanding
      ensures HandleIteration.Released(weak, old(weak.repr), old(allocator.outstanding))
      ensures Sound() && weak.live == old(weak.live) - {h} && weak.repr <= old(weak.repr)
      ensures weak.peak == old(weak.peak)
    {
      hide Pool.Valid, NodeList.Valid, ListedInv, Distinct, OthersKept, Unflagged;
      DisposeAndDelete(weak, h);
    }

    /** `DisposeGlobalHandle<UNIFIED_NODE>`. */
    method DisposeUnifiedHandle(h: Handle)
      requires Valid() && h.0 in xref.repr && h.1 < |h.0.nodes|
      modifies xref, xref.repr, allocator`outstanding
      ensures Valid() && xref.live == old(xref.live) - {h}
      ensures HandleIteration.Released(xref, old(xref.repr), old(allocator.outstanding))
      ensures h !in old(xref.live) ==>
                xref.repr == old(xref.repr) && forall b :: b in old(xref.repr) ==> b.nodes == old(b.nodes)
      ensures normal.live == old(normal.live) && weak.live == old(weak.live)
      ensures normal.peak == old(normal.peak) && xref.peak == old(xref.peak) && weak.peak == old(weak.peak)
    {
      hide Pool.Valid, NodeList.Valid, ListedInv, Distinct, OthersKept, Unflagged;
      PoolsDiffer();
      xref.UsingIsLive(h);
      if !h.0.NodeAt(h.1).isUsing {
        return;
      }
      DisposeAndDelete(xref, h);
    }

    /** A slot of a block the storage has not deleted says truly whether it is live and whether it is weak. */
    lemma SlotState(h: Handle)
      requires Sound() && h.0 in normal.repr + weak.repr + deferred && h.1 < |h.0.nodes|
      ensures !h.0.deleted
      ensures h.0.nodes[h.1].isUsing <==> h in normal.live || h in weak.live
      ensures h in normal.live ==> !h.0.nodes[h.1].isWeak && normal.live[h] == h.0.nodes[h.1].obj && h !in weak.live
      ensures h in weak.live ==> h.0.nodes[h.1].isWeak && weak.live[h] == h.0.nodes[h.1].obj
    {
      hide Pool.Valid, NodeList.Valid, ListedInv, Distinct;
      if h in normal.live {
        normal.LiveFacts(h);
        normal.ReprIsChain();
      }
      if h in weak.live {
        weak.LiveFacts(h);
        weak.ReprIsChain();
      }
      if h.0 in normal.repr {
        normal.UsingIsLive(h);
      } else if h.0 in weak.repr {
        weak.UsingIsLive(h);
      } else {
        h.0.Shape();
      }
    }

    /** `DisposeGlobalHandle<NORMAL_NODE>`: a handle that is not live any more is left alone. */
    method DisposeGlobalHandle(h: Handle)
      requires Valid() && h.0 in normal.repr + weak.repr + deferred && h.1 < |h.0.nodes|
      modifies this`toBeDeleted, this`deferred, normal, weak, normal.repr, weak.repr, allocator`outstanding
      ensures Valid()
      ensures HandleIteration.Released(weak, old(weak.repr), old(allocator.outstanding))
      ensures forall b :: b in old(normal.repr) && b !in normal.repr ==> b in toBeDeleted
      ensures normal.live == old(normal.live) - {h} && weak.live == old(weak.live) - {h}
      ensures normal.repr <= old(normal.repr) && weak.repr <= old(weak.repr)
      ensures normal.repr + deferred == old(normal.repr + deferred) && normal.peak == old(normal.peak)
      ensures old(h !in normal.live && h !in weak.live) ==>
                && normal.repr == old(normal.repr) && weak.repr == old(weak.repr) && toBeDeleted == old(toBeDeleted)
                && forall b :: b in old(normal.repr) || b in old(weak.repr) ==> b.nodes == old(b.nodes)
      ensures xref.live == old(xref.live) && xref.peak == old(xref.peak) && weak.peak == old(weak.peak)
    {
      hide Sound;
      PoolsDiffer();
      SlotState(h);
      if !h.0.NodeAt(h.1).isUsing {
        return;
      }
      if h.0.NodeAt(h.1).isWeak {
        DisposeWeak(h);
      } else {
        DisposeNormal(h);
      }
    }

    /** In every reachable state: no duplicates; a node's flag is set exactly when it is listed, even once disposed or
        reused; no weak or unified node is flagged; every live normal handle to a young object is listed. */
    lemma YoungListExact(b: NodeList, i: nat)
      requires Valid() && b in normal.repr + xref.repr + weak.repr + deferred && i < |b.nodes|
      ensures Distinct(young)
      ensures b.nodes[i].isInYoungList <==> (b, i) in young
      ensures b in xref.repr + weak.repr ==> (b, i) !in young
      ensures (b, i) in normal.live && IsYoung(normal.live[(b, i)]) ==> (b, i) in young
    {
      hide Pool.Valid, NodeList.Valid, Distinct;
      assert b in normal.repr + deferred ==> FlagView()[b] == b.nodes;
    }

    lemma PoolsDiffer()
      requires Sound()
      ensures normal != xref && normal != weak && xref != weak
      ensures normal.allocator == xref.allocator == weak.allocator == allocator
      ensures normal.repr !! xref.repr !! weak.repr !! deferred
      ensures forall b :: b in deferred ==> b in toBeDeleted
    {
      hide Distinct, ListedInv, Pool.Valid;
    }

    /** A live handle belongs to a block of its pool. */
    lemma LiveBlock(h: Handle)
      requires Sound()
      ensures h in normal.live ==> h.0 in normal.repr && h.1 < |h.0.nodes|
      ensures h in weak.live ==> h.0 in weak.repr && h.1 < |h.0.nodes|
    {
      hide Pool.Valid, NodeList.Valid, ListedInv, Distinct;
      if h in normal.live {
        normal.LiveFacts(h);
        normal.ReprIsChain();
      }
      if h in weak.live {
        weak.LiveFacts(h);
        weak.ReprIsChain();
      }
    }

    /** In how many places a block is: the pools, the blocks to be deleted, and the deleted ones. */
    ghost function Places(b: NodeList): nat
      reads this`toBeDeleted, normal`repr, xref`repr, weak`repr, b`deleted
    {
      (if b in normal.repr then 1 else 0) + (if b in xref.repr then 1 else 0) + (if b in weak.repr then 1 else 0) +
      (if b in toBeDeleted then 1 else 0) + (if b.deleted then 1 else 0)
    }

    /** No block is lost and none is deleted while something refers to it. */
    lemma BlockInOnePlace(b: NodeList)
      requires Valid() && b in allocator.issued
      ensures Places(b) == 1
    {
      hide NodeList.Valid, ListedInv, Distinct, PoolInv, Pool.LinksValid, Pool.FreeLinksValid, OthersUnflagged, Covered;
    }

    /** The allocator has not taken back any block of a pool, which is what a walk over the pool relies on. */
    lemma PoolsAllocated()
      requires Valid()
      ensures normal.allocator == xref.allocator == weak.allocator == allocator
      ensures normal.repr + xref.repr + weak.repr <= allocator.outstanding
    {
      hide NodeList.Valid, ListedInv, Distinct, Pool.Valid, OthersUnflagged, Covered;
    }

    /** Every block the normal pool uses or still has to delete has all its slots. */
    lemma BlockNodes(b: NodeList)
      requires Sound() && b in normal.repr + deferred
      ensures |b.nodes| == GLOBAL_BLOCK_SIZE
    {
      hide NodeList.Valid, ListedInv, Distinct, PoolInv, Pool.LinksValid, Pool.FreeLinksValid;
      b.Shape();
    }

    /** Each pool has at most as many blocks as its peak calls for. */
    lemma PoolBlocks()
      requires Valid()
      ensures 1 <= |normal.chain| <= BlocksFor(normal.peak)
      ensures 1 <= |xref.chain| <= BlocksFor(xref.peak)
      ensures 1 <= |weak.chain| <= BlocksFor(weak.peak)
    {
      hide Pool.Valid, ListedInv;
      normal.BlockBound();
      xref.BlockBound();
      weak.BlockBound();
    }

    lemma UnifiedBlock(h: Handle)
      requires Sound() && h in xref.live
      ensures h.0 in xref.repr && h.1 < |h.0.nodes|
    {
      hide Pool.Valid, NodeList.Valid, ListedInv, Distinct;
      xref.LiveFacts(h);
      xref.ReprIsChain();
    }

    /** `SetWeak`: the value moves to a handle of the weak pool. */
    method SetWeak(h: Handle) returns (r: Handle)
      requires Valid() && (h in normal.live || h in weak.live)
      modifies this`toBeDeleted, this`deferred, normal, weak, normal.repr, weak.repr, allocator
      ensures forall b :: b in old(weak.repr) && b !in weak.repr ==> b.deleted
      ensures forall b :: b in old(normal.repr) && b !in normal.repr ==> b in toBeDeleted
      ensures Valid() && fresh(weak.repr - old(weak.repr)) && normal.repr <= old(normal.repr)
      ensures normal.live == old(normal.live) - {h}
      ensures r !in old(weak.live) - {h}
      ensures weak.live == (old(weak.live) - {h})[r := old(if h in normal.live then normal.live[h] else weak.live[h])]
      ensures normal.repr + deferred == old(normal.repr + deferred) && normal.peak == old(normal.peak)
      ensures xref.live == old(xref.live)
      ensures xref.peak == old(xref.peak) && weak.peak == Max(old(weak.peak), |weak.live|)
    {
      hide Sound;
      PoolsDiffer();
      LiveBlock(h);
      SlotState(h);
      var value := h.0.NodeAt(h.1).obj;
      DisposeGlobalHandle(h);
      r := AllocateWeak(value);
    }

    /** `ClearWeak`: the value moves to a handle of the normal pool. */
    method ClearWeak(h: Handle) returns (r: Handle)
      requires Valid() && (h in normal.live || h in weak.live)
      modifies this`toBeDeleted, this`deferred, this`young, normal, weak, normal.repr, weak.repr, allocator
      ensures forall b :: b in old(weak.repr) && b !in weak.repr ==> b.deleted
      ensures forall b :: b in old(normal.repr) && b !in normal.repr ==> b in toBeDeleted
      ensures Valid() && fresh(normal.repr - old(normal.repr)) && weak.repr <= old(weak.repr)
      ensures fresh(normal.repr + deferred - old(normal.repr + deferred))
      ensures old(normal.repr + deferred) <= normal.repr + deferred
      ensures weak.live == old(weak.live) - {h}
      ensures r !in old(normal.live) - {h}
      ensures normal.live == (old(normal.live) - {h})[r := old(if h in normal.live then normal.live[h] else weak.live[h])]
      ensures young == if IsYoung(normal.live[r]) && r !in old(young) then old(young) + [r] else old(young)
      ensures normal.peak == Max(old(normal.peak), |normal.live|)
      ensures xref.live == old(xref.live) && xref.peak == old(xref.peak) && weak.peak == old(weak.peak)
    {
      hide Sound;
      PoolsDiffer();
      LiveBlock(h);
      SlotState(h);
      var value := h.0.NodeAt(h.1).obj;
      DisposeGlobalHandle(h);
      r := NewGlobalHandle(value);
    }

    lemma ListedBlock(list: seq<Handle>, h: Handle)
      requires SoundFor(list) && h in list
      ensures h.0 in normal.repr + deferred && h.1 < |h.0.nodes|
      ensures h.0.Valid() && !h.0.deleted
      ensures h.0.nodes[h.1].isUsing <==> h in normal.live
      ensures h in normal.live ==> normal.live[h] == h.0.nodes[h.1].obj
    {
      hide Pool.Valid, NodeList.Valid, Distinct;
      assert h.0 in FlagView();
      normal.ReprIsChain();
      if h in normal.live {
        normal.LiveFacts(h);
      }
      if h.0 in normal.repr {
        normal.UsingIsLive(h);
      } else {
        h.0.Shape();
      }
    }

    lemma AllListedBlocks()
      requires Sound()
      ensures forall h :: h in young ==> h.0 in normal.repr + deferred && !h.0.deleted
    {
      hide SoundFor;
      forall h | h in young
        ensures h.0 in normal.repr + deferred && !h.0.deleted
      {
        ListedBlock(young, h);
      }
    }

    /** After an update, or after clearing the list, no listed handle lies in a deferred block. */
    lemma ListedLiveBlocks()
      requires Sound() && forall h :: h in young ==> h in normal.live
      ensures forall h :: h in young ==> h.0 in normal.repr && h.0 !in deferred
    {
      forall h | h in young
        ensures h.0 in normal.repr && h.0 !in deferred
      {
        LiveBlock(h);
      }
    }

    /** Takes the handle at position `k` of `list` off the young list by clearing its flag. */
    method Unlist(h: Handle, ghost list: seq<Handle>, ghost k: nat)
      requires SoundFor(list) && k < |list| && list[k] == h
      modifies h.0`nodes
      ensures SoundFor(RemoveAt(list, k)) && normal.live == old(normal.live)
      ensures h.0.nodes == old(h.0.nodes)[h.1 := old(h.0.nodes)[h.1].(isInYoungList := false)]
    {
      hide Pool.Valid, NodeList.Valid, ListedInv, Distinct, RemoveAt;
      ghost var flags := FlagView();
      ListedBlock(list, h);
      ListedRemove(flags, list, k);
      SetFlag(h, false);
      assert FlagView() == flags[h.0 := h.0.nodes];
    }

    /** A handle stays on the young list while it is live and refers to a young object. */
    ghost predicate Stays(h: Handle)
      reads this`youngSpace, normal`live
    {
      h in normal.live && IsYoung(normal.live[h])
    }

    /** The part of a list that stays. */
    ghost function Staying(list: seq<Handle>): seq<Handle>
      reads this`youngSpace, normal`live
    {
      if list == [] then []
      else Staying(list[..|list| - 1]) + (if Stays(list[|list| - 1]) then [list[|list| - 1]] else [])
    }

    lemma StayingStep(list: seq<Handle>, i: nat)
      requires i < |list|
      ensures Staying(list[..i + 1]) == if Stays(list[i]) then Staying(list[..i]) + [list[i]] else Staying(list[..i])
    {
      assert list[..i + 1][..i] == list[..i];
    }

    lemma {:induction false} StayingIn(list: seq<Handle>)
      ensures forall h :: h in Staying(list) ==> h in list && Stays(h)
      ensures forall h :: h in list && Stays(h) ==> h in Staying(list)
    {
      if list != [] {
        StayingIn(list[..|list| - 1]);
        assert list == list[..|list| - 1] + [list[|list| - 1]];
      }
    }

    /** The first `i` entries of `list` have been looked at, and those that stay moved to the front. */
    ghost predicate Compacting(list: seq<Handle>, index: nat, i: nat)
      reads this, normal, xref, weak, normal.repr, xref.repr, weak.repr, deferred
    {
      && index <= i <= |young| == |list|
      && young[i..] == list[i..] && young[..index] == Staying(list[..i])
      && SoundFor(young[..index] + young[i..])
    }

    method Compact(ghost list: seq<Handle>, index: nat, i: nat) returns (index': nat)
      requires Compacting(list, index, i) && i < |young|
      modifies this`young, normal.repr`nodes, deferred`nodes
      ensures Compacting(list, index', i + 1) && |young| == |old(young)|
    {
      hide SoundFor, Staying, RemoveAt;
      var h := young[i];
      ghost var pending := young[..index] + young[i..];
      assert pending[index] == h;
      ListedBlock(pending, h);
      StayingStep(list, i);
      Dropped(young, index, i);
      if h.0.NodeAt(h.1).isUsing && IsYoung(h.0.NodeAt(h.1).obj) {
        young := young[index := h];
        index' := index + 1;
      } else {
        Unlist(h, pending, index);
        index' := index;
      }
    }

    lemma StartCompacting()
      requires Sound()
      ensures Compacting(young, 0, 0)
    {
      hide SoundFor;
      assert young[..0] == [] && young[..0] + young[0..] == young;
    }

    lemma DoneCompacting(list: seq<Handle>, index: nat)
      requires Compacting(list, index, |list|)
      ensures index <= |young| && young[..index] == Staying(list) && SoundFor(young[..index])
    {
      hide SoundFor, Staying;
      assert list[..|list|] == list && young[..index] + young[|young|..] == young[..index];
    }

    /** `UpdateYoungGlobalList`: compacts the list in place. */
    method UpdateYoungGlobalList()
      requires Valid()
      modifies this`young, normal.repr`nodes, deferred`nodes
      ensures Valid() && young == old(Staying(young))
      ensures forall h :: h in young ==> h in normal.live
    {
      hide SoundFor, Staying, Compacting;
      ghost var list := young;
      var index: nat, i: nat := 0, 0;
      StartCompacting();
      while i < |young|
        invariant i <= |young| == |list| && Compacting(list, index, i)
      {
        index := Compact(list, index, i);
        i := i + 1;
      }
      DoneCompacting(list, index);
      StayingIn(list);
      young := young[..index];
    }

    /** `ClearYoungGlobalList`; it is meant for a time when no live handle refers to a young object. */
    method ClearYoungGlobalList()
      requires Valid()
      modifies this`young, normal.repr`nodes, deferred`nodes
      ensures Sound() && Owned() && young == []
      ensures Valid() <==> forall h :: h in normal.live ==> !IsYoung(normal.live[h])
    {
      hide SoundFor, RemoveAt;
      var i := 0;
      assert young[0..] == young;
      while i < |young|
        invariant 0 <= i <= |young| && SoundFor(young[i..])
      {
        var h := young[i];
        assert young[i..][0] == h;
        RemoveFirst(young, i);
        ListedBlock(young[i..], h);
        Unlist(h, young[i..], 0);
        i := i + 1;
      }
      assert young[|young|..] == [];
      young := [];
    }

    /** A collection promotes or frees young objects: addresses only leave the young space. */
    method Age(old': set<int>)
      requires Valid()
      modifies this`youngSpace
      ensures Valid() && youngSpace == old(youngSpace) - old'
    {
      hide SoundFor;
      youngSpace := youngSpace - old';
    }

    /** New objects in young regions: the list stays exact if and only if no live handle that is not listed
        refers to one of their addresses already. */
    method Allocate(addresses: set<int>)
      requires Valid()
      modifies this`youngSpace
      ensures Sound() && Owned() && youngSpace == old(youngSpace) + addresses
      ensures Valid() <==> forall h :: h in normal.live && h !in young && normal.live[h].HeapObject? ==>
                                    normal.live[h].address !in addresses
    {
      hide SoundFor;
      youngSpace := youngSpace + addresses;
    }

    method DeleteDeferred()
      requires Separate() && deferred <= allocator.outstanding && forall b :: b in deferred ==> !b.deleted
      modifies deferred`deleted, allocator`outstanding
      ensures forall b :: b in deferred ==> b.deleted
      ensures allocator.outstanding == old(allocator.outstanding) - deferred
    {
      var i := 0;
      while i < |toBeDeleted|
        invariant 0 <= i <= |toBeDeleted|
        invariant forall k :: 0 <= k < |toBeDeleted| ==> (toBeDeleted[k].deleted <==> k < i)
        invariant old(allocator.outstanding) - deferred <= allocator.outstanding <= old(allocator.outstanding)
        invariant forall k :: 0 <= k < |toBeDeleted| ==> (toBeDeleted[k] in allocator.outstanding <==> k >= i)
      {
        allocator.Delete(toBeDeleted[i]);
        i := i + 1;
      }
    }

    method GiveBackDeferred()
      requires PoolsValid() && Separate() && DeferredValid() && OthersUnflagged() && Owned()
      modifies this`toBeDeleted, this`deferred, deferred`deleted, allocator`outstanding
      ensures PoolsValid() && Separate() && DeferredValid() && OthersUnflagged() && Owned()
      ensures toBeDeleted == [] && deferred == {} && forall b :: b in old(deferred) ==> b.deleted
      ensures FlagView() == old(FlagView()) - old(deferred)
    {
      hide PoolsValid, OthersUnflagged, NodeList.Valid;
      DeleteDeferred();
      toBeDeleted, deferred := [], {};
    }

    lemma ListedGone(list: seq<Handle>, flags: Flags, gone: set<NodeList>)
      requires ListedInv(flags - gone, list)
      ensures forall h :: h in list ==> h.0 !in gone
    {
    }

    /** `ClearToBeDeletedNodes`.  The storage stays sound exactly when no listed handle lies in one of the
        blocks; `UpdateYoungGlobalList` and `ClearYoungGlobalList` both see to that. */
    method ClearToBeDeletedNodes()
      requires Valid()
      modifies this`toBeDeleted, this`deferred, deferred`deleted, allocator`outstanding
      ensures Owned() && toBeDeleted == [] && deferred == {}
      ensures forall b :: b in old(deferred) ==> b.deleted
      ensures Valid() <==> old(forall h :: h in young ==> h.0 !in deferred)
      ensures (exists h :: h in young && h.0.deleted) <==> old(exists h :: h in young && h.0 in deferred)
    {
      hide PoolsValid, ListedInv, Separate, DeferredValid, OthersUnflagged, Owned, FlagView;
      AllListedBlocks();
      ghost var flags, gone := FlagView(), deferred;
      if forall h :: h in young ==> h.0 !in deferred {
        ListedShrink(flags, young, deferred);
      }
      GiveBackDeferred();
      if Valid() {
        ListedGone(young, flags, gone);
      }
    }
  }
}
