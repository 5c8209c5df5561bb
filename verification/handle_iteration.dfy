/** Iteration over the handles of a pool (`IterateNodeList` and `IterateUsageGlobal` of
    ecma_global_storage.h) with a callback that may dispose the handle it is given. */
module HandleIteration {
  import opened Basics
  import opened HandleBlock
  import opened HandlePool

  /** What a walk is asked to leave behind: the blocks that left the pool are deleted, and no others. */
  ghost predicate Released(pool: Pool, repr: set<NodeList>, outstanding: set<NodeList>)
    reads pool`repr, pool.allocator`outstanding, repr`deleted
  {
    && pool.repr <= repr
    && pool.allocator.outstanding == outstanding - (repr - pool.repr)
    && forall b :: b in repr && b !in pool.repr ==> b.deleted
  }

  ghost function Handles(block: NodeList, slots: seq<nat>): seq<Handle> {
    seq(|slots|, i requires 0 <= i < |slots| => (block, slots[i]))
  }

  /** The handles among `visited` that the callback disposes. */
  ghost function Chosen(visited: seq<Handle>, dispose: Handle -> bool): set<Handle> {
    set h | h in visited && dispose(h)
  }

  lemma NoneVisited(block: NodeList, dispose: Handle -> bool)
    ensures Handles(block, []) == [] && Chosen([], dispose) == {}
  {
  }

  lemma VisitedGrows(block: NodeList, slots: seq<nat>, n: nat, dispose: Handle -> bool)
    requires n < |slots|
    ensures Handles(block, slots[..n + 1]) == Handles(block, slots[..n]) + [(block, slots[n])]
    ensures Chosen(Handles(block, slots[..n + 1]), dispose) ==
            Chosen(Handles(block, slots[..n]), dispose) + Chosen([(block, slots[n])], dispose)
    ensures slots[n..] == [slots[n]] + slots[n + 1..]
  {
    assert slots[..n + 1] == slots[..n] + [slots[n]];
  }

  lemma ChosenUnion(a: seq<Handle>, b: seq<Handle>, dispose: Handle -> bool)
    ensures Chosen(a + b, dispose) == Chosen(a, dispose) + Chosen(b, dispose) && Chosen([], dispose) == {}
  {
  }

  lemma ChosenDropped(live: map<Handle, Value>, a: seq<Handle>, b: seq<Handle>, dispose: Handle -> bool)
    ensures live - Chosen([], dispose) == live
    ensures live - Chosen(a, dispose) - Chosen(b, dispose) == live - Chosen(a + b, dispose)
  {
    ChosenUnion(a, b, dispose);
  }

  /** The callback: it is called for a live handle and may dispose it. */
  method Visit(pool: Pool, h: Handle, dispose: Handle -> bool)
    requires pool.repr <= pool.allocator.outstanding
    requires pool.Valid() && h in pool.live
    modifies pool, pool.repr, pool.allocator`outstanding
    ensures pool.Valid() && pool.live == old(pool.live) - Chosen([h], dispose)
    ensures if dispose(h) then Took(old(h.0.used), h.0.used, h.1) else h.0.used == old(h.0.used)
    ensures Released(pool, old(pool.repr), old(pool.allocator.outstanding))
    ensures || (pool.chain == old(pool.chain) && !h.0.deleted)
            || (dispose(h) && h.0.used == [] && Took(old(pool.chain), pool.chain, h.0))
    ensures forall b :: b in old(pool.chain) && b != h.0 ==>
              b.used == old(b.used) && b.nodes == old(b.nodes) && b.deleted == old(b.deleted)
  {
    hide Pool.LinksValid, Pool.FreeLinksValid, Pool.BlocksValid, Pool.View, PoolInv, NodeList.Valid, Took;
    pool.LiveFacts(h);
    if dispose(h) {
      var removed := pool.Dispose(h);
      if removed != null {
        pool.allocator.Delete(removed);
      }
    }
  }

  /** Taking the element behind a prefix of a list without repetitions removes exactly that one. */
  lemma TookAt<T>(before: seq<T>, after: seq<T>, x: T, k: nat)
    requires Distinct(before) && k < |before| && before[k] == x && Took(before, after, x)
    ensures after == before[..k] + before[k + 1..]
  {
  }

  /** One round: the next slot is read first, then the callback runs. */
  method Round(pool: Pool, block: NodeList, current: nat, dispose: Handle -> bool,
               ghost kept: seq<nat>, ghost rest: seq<nat>) returns (next: Option<nat>)
    requires pool.repr <= pool.allocator.outstanding
    requires pool.Valid() && block in pool.chain && block.used == kept + [current] + rest
    modifies pool, pool.repr, pool.allocator`outstanding
    ensures pool.Valid() && pool.live == old(pool.live) - Chosen([(block, current)], dispose)
    ensures next == First(rest)
    ensures Released(pool, old(pool.repr), old(pool.allocator.outstanding))
    ensures next.Some? ==>
              && pool.chain == old(pool.chain)
              && block.used == (if dispose((block, current)) then kept else kept + [current]) + rest
    ensures pool.chain == old(pool.chain) || Took(old(pool.chain), pool.chain, block)
    ensures forall b :: b in old(pool.chain) && b != block ==>
              b.used == old(b.used) && b.nodes == old(b.nodes) && b.deleted == old(b.deleted)
  {
    hide Pool.Valid, NodeList.Valid, Took, Distinct;
    ghost var before, k := block.used, |kept|;
    assert before[k] == current && before[..k] == kept && before[k + 1..] == rest;
    pool.UsedIsLive(block, k);
    block.UsedAt(k);
    next := block.NodeAt(current).next;
    Visit(pool, (block, current), dispose);
    if dispose((block, current)) {
      TookAt(before, block.used, current, k);
    }
  }

  /** `NodeList::IterateUsageGlobal`. */
  method IterateUsageGlobal(pool: Pool, block: NodeList, dispose: Handle -> bool) returns (ghost visited: seq<Handle>)
    requires pool.repr <= pool.allocator.outstanding
    requires pool.Valid() && block in pool.chain
    modifies pool, pool.repr, pool.allocator`outstanding
    ensures pool.Valid() && visited == Handles(block, old(block.used))
    ensures pool.live == old(pool.live) - Chosen(visited, dispose)
    ensures Released(pool, old(pool.repr), old(pool.allocator.outstanding))
    ensures pool.chain == old(pool.chain) || Took(old(pool.chain), pool.chain, block)
    ensures forall b :: b in old(pool.chain) && b != block ==>
              b.used == old(b.used) && b.nodes == old(b.nodes) && b.deleted == old(b.deleted)
  {
    hide Pool.Valid, Took, Handles, Chosen;
    pool.Listed(block);
    ghost var slots := block.used;
    ghost var kept: seq<nat> := [];
    ghost var n := 0;
    var next := block.UsedHead();
    assert slots[..0] == [] && slots[0..] == slots && kept + slots == slots;
    NoneVisited(block, dispose);
    visited := [];
    while next.Some?
      invariant pool.Valid() && n <= |slots| && next == First(slots[n..])
      invariant visited == Handles(block, slots[..n])
      invariant Released(pool, old(pool.repr), old(pool.allocator.outstanding))
      invariant next.Some? ==> pool.chain == old(pool.chain) && block.used == kept + slots[n..]
      invariant pool.live == old(pool.live) - Chosen(visited, dispose)
      invariant pool.chain == old(pool.chain) || Took(old(pool.chain), pool.chain, block)
      invariant forall b :: b in old(pool.chain) && b != block ==>
                  b.used == old(b.used) && b.nodes == old(b.nodes) && b.deleted == old(b.deleted)
      decreases |slots| - n
    {
      var current := next.value;
      VisitedGrows(block, slots, n, dispose);
      assert kept + slots[n..] == kept + [current] + slots[n + 1..];
      next := Round(pool, block, current, dispose, kept, slots[n + 1..]);
      if !dispose((block, current)) {
        kept := kept + [current];
      }
      visited := visited + [(block, current)];
      n := n + 1;
    }
    assert slots[..|slots|] == slots;
  }

  ghost function UsedLists(blocks: seq<NodeList>): seq<seq<nat>>
    reads blocks
  {
    seq(|blocks|, i requires 0 <= i < |blocks| reads blocks => blocks[i].used)
  }

  /** The handles of the first `n` blocks, block by block, each block's used list from its head. */
  ghost function AllHandles(blocks: seq<NodeList>, lists: seq<seq<nat>>, n: nat): seq<Handle>
    requires n <= |blocks| == |lists|
  {
    if n == 0 then [] else AllHandles(blocks, lists, n - 1) + Handles(blocks[n - 1], lists[n - 1])
  }

  lemma UsedListsAt(blocks: seq<NodeList>)
    ensures |UsedLists(blocks)| == |blocks|
    ensures forall i :: 0 <= i < |blocks| ==> UsedLists(blocks)[i] == blocks[i].used
  {
  }

  lemma AllHandlesSteps(blocks: seq<NodeList>, lists: seq<seq<nat>>, n: nat)
    requires n < |blocks| == |lists|
    ensures AllHandles(blocks, lists, 0) == []
    ensures AllHandles(blocks, lists, n + 1) == AllHandles(blocks, lists, n) + Handles(blocks[n], lists[n])
  {
  }

  /** Walks one block; the next block is read first. */
  method WalkBlock(pool: Pool, block: NodeList, dispose: Handle -> bool, ghost kept: seq<NodeList>, ghost rest: seq<NodeList>)
    returns (next: NodeList?, ghost visited: seq<Handle>)
    requires pool.repr <= pool.allocator.outstanding
    requires pool.Valid() && pool.chain == kept + [block] + rest
    modifies pool, pool.repr, pool.allocator`outstanding
    ensures pool.Valid() && next == Head(rest)
    ensures Released(pool, old(pool.repr), old(pool.allocator.outstanding))
    ensures visited == Handles(block, old(block.used))
    ensures pool.live == old(pool.live) - Chosen(visited, dispose)
    ensures pool.chain == kept + [block] + rest || pool.chain == kept + rest
    ensures forall b :: b in rest ==> b.used == old(b.used)
  {
    hide Pool.Valid, Took, Handles, Chosen, Distinct;
    ghost var before, k := pool.chain, |kept|;
    assert before[k] == block && before[..k] == kept && before[k + 1..] == rest;
    pool.NextBlock(k);
    NotAmong(before, k);
    next := block.GetNext();
    visited := IterateUsageGlobal(pool, block, dispose);
    if pool.chain != before {
      TookAt(before, pool.chain, block, k);
    }
  }

  lemma NotAmong<T>(s: seq<T>, k: nat)
    requires Distinct(s) && k < |s|
    ensures s[k] !in s[k + 1..]
  {
  }

  /** The first `p` of the `blocks` have been walked, `kept` of them are still there, and the rest is as
      it was when the walk began. */
  ghost predicate Walking(pool: Pool, kept: seq<NodeList>, blocks: seq<NodeList>, lists: seq<seq<nat>>, p: nat)
    requires p <= |blocks| == |lists|
    reads pool, blocks
  {
    && pool.chain == kept + blocks[p..]
    && (forall i :: p <= i < |blocks| ==> blocks[i].used == lists[i])
  }

  method BlockRound(pool: Pool, current: NodeList, dispose: Handle -> bool, ghost kept: seq<NodeList>,
                    ghost blocks: seq<NodeList>, ghost lists: seq<seq<nat>>, ghost p: nat)
    returns (next: NodeList?, ghost visited: seq<Handle>, ghost kept': seq<NodeList>)
    requires pool.repr <= pool.allocator.outstanding
    requires pool.Valid() && p < |blocks| == |lists| && current == blocks[p]
    requires Walking(pool, kept, blocks, lists, p)
    modifies pool, pool.repr, pool.allocator`outstanding
    ensures Released(pool, old(pool.repr), old(pool.allocator.outstanding))
    ensures pool.Valid() && next == if p + 1 < |blocks| then blocks[p + 1] else null
    ensures Walking(pool, kept', blocks, lists, p + 1)
    ensures visited == Handles(current, lists[p])
    ensures pool.live == old(pool.live) - Chosen(visited, dispose)
  {
    hide Pool.Valid, Handles, Chosen;
    ghost var rest := blocks[p + 1..];
    assert pool.chain == kept + [current] + rest;
    next, visited := WalkBlock(pool, current, dispose, kept, rest);
    assert forall i :: p < i < |blocks| ==> blocks[i] in rest;
    kept' := kept;
    if pool.chain != kept + rest {
      kept' := kept + [current];
    }
  }

  lemma StartWalk(pool: Pool)
    requires pool.Valid()
    ensures var blocks := pool.chain;
            && blocks != [] && pool.top == blocks[0] && |UsedLists(blocks)| == |blocks|
            && Walking(pool, [], blocks, UsedLists(blocks), 0)
  {
    hide Pool.Valid;
    pool.FirstBlock();
    assert pool.chain == [] + pool.chain[0..];
  }

  /** `EcmaGlobalStorage::IterateNodeList`. */
  method IterateNodeList(pool: Pool, dispose: Handle -> bool) returns (ghost visited: seq<Handle>)
    requires pool.Valid() && pool.repr <= pool.allocator.outstanding
    modifies pool, pool.repr, pool.allocator`outstanding
    ensures pool.Valid() && old(|UsedLists(pool.chain)| == |pool.chain|)
    ensures visited == old(AllHandles(pool.chain, UsedLists(pool.chain), |pool.chain|))
    ensures pool.live == old(pool.live) - Chosen(visited, dispose)
    ensures Released(pool, old(pool.repr), old(pool.allocator.outstanding))
  {
    hide Pool.Valid, Handles, Chosen, AllHandles, UsedLists, Walking;
    StartWalk(pool);
    ghost var blocks, lists, live := pool.chain, UsedLists(pool.chain), pool.live;
    ghost var kept: seq<NodeList> := [];
    ghost var p := 0;
    var next: NodeList? := pool.top;
    visited := [];
    ChosenDropped(live, [], [], dispose);
    AllHandlesSteps(blocks, lists, 0);
    while next != null
      invariant Released(pool, old(pool.repr), old(pool.allocator.outstanding))
      invariant pool.Valid() && p <= |blocks| && Walking(pool, kept, blocks, lists, p)
      invariant next == if p < |blocks| then blocks[p] else null
      invariant visited == AllHandles(blocks, lists, p)
      invariant pool.live == live - Chosen(visited, dispose)
      decreases |blocks| - p
    {
      ghost var more;
      AllHandlesSteps(blocks, lists, p);
      next, more, kept := BlockRound(pool, next, dispose, kept, blocks, lists, p);
      ChosenDropped(live, visited, more, dispose);
      visited := visited + more;
      p := p + 1;
    }
  }

  lemma HandlesOnce(block: NodeList, slots: seq<nat>)
    requires Distinct(slots)
    ensures Distinct(Handles(block, slots))
    ensures forall h :: h in Handles(block, slots) ==> h.0 == block && h.1 in slots
    ensures forall i :: i in slots ==> (block, i) in Handles(block, slots)
  {
    forall i | i in slots
      ensures (block, i) in Handles(block, slots)
    {
      var k :| 0 <= k < |slots| && slots[k] == i;
      assert Handles(block, slots)[k] == (block, i);
    }
  }

  lemma {:induction false} AllHandlesOnce(blocks: seq<NodeList>, lists: seq<seq<nat>>, n: nat)
    requires n <= |blocks| == |lists| && Distinct(blocks)
    requires forall k :: 0 <= k < |lists| ==> Distinct(lists[k])
    ensures Distinct(AllHandles(blocks, lists, n))
    ensures forall h :: h in AllHandles(blocks, lists, n) ==> exists k :: 0 <= k < n && h.0 == blocks[k] && h.1 in lists[k]
    ensures forall k, i :: 0 <= k < n && i in lists[k] ==> (blocks[k], i) in AllHandles(blocks, lists, n)
  {
    if n > 0 {
      AllHandlesOnce(blocks, lists, n - 1);
      HandlesOnce(blocks[n - 1], lists[n - 1]);
      hide Handles;
    }
  }

  /** A walk that starts in a valid pool calls back for every live handle, and for each one once. */
  lemma WalkVisitsLiveOnce(pool: Pool)
    requires pool.Valid()
    ensures |UsedLists(pool.chain)| == |pool.chain|
    ensures var visited := AllHandles(pool.chain, UsedLists(pool.chain), |pool.chain|);
            && Distinct(visited)
            && (forall h :: h in visited ==> h in pool.live)
            && (forall h :: h in pool.live ==> h in visited)
  {
    var blocks, lists := pool.chain, UsedLists(pool.chain);
    UsedListsAt(blocks);
    pool.UsedMatchesLive();
    AllHandlesOnce(blocks, lists, |blocks|);
    hide Pool.Valid, AllHandles, UsedLists, Distinct;
    forall h | h in pool.live
      ensures h in AllHandles(blocks, lists, |blocks|)
    {
      var k :| 0 <= k < |blocks| && blocks[k] == h.0;
      assert h == (blocks[k], h.1);
    }
  }
}
