/** One pool of handle blocks: the `top`/`last`/`freeList` triple that ecma_global_storage.h passes to
    `NewGlobalHandleImplement` and `DisposeGlobalHandleInner`.

    Blocks sit in a doubly linked chain, and those with free nodes also in a second doubly linked
    chain.  A handle is a slot of a block. */
module HandlePool {
  import opened Basics
  import opened HandleBlock

  type Handle = (NodeList, nat)

  ghost predicate Chained(s: seq<NodeList>)
    reads s`next, s`prev
  {
    && (forall i, j :: 0 <= i < j < |s| && j == i + 1 ==> s[i].next == s[j] && s[j].prev == s[i])
    && (s != [] ==> s[0].prev == null && s[|s| - 1].next == null)
  }

  ghost predicate FreeChained(s: seq<NodeList>)
    reads s`freeNext, s`freePrev
  {
    && (forall i, j :: 0 <= i < j < |s| && j == i + 1 ==> s[i].freeNext == s[j] && s[j].freePrev == s[i])
    && (s != [] ==> s[0].freePrev == null && s[|s| - 1].freeNext == null)
  }

  lemma Neighbours(s: seq<NodeList>, k: nat)
    requires Chained(s) && k < |s|
    ensures s[k].prev == if k == 0 then null else s[k - 1]
    ensures s[k].next == if k + 1 == |s| then null else s[k + 1]
  {
  }

  lemma FreeNeighbours(s: seq<NodeList>, k: nat)
    requires FreeChained(s) && k < |s|
    ensures s[k].freePrev == if k == 0 then null else s[k - 1]
    ensures s[k].freeNext == if k + 1 == |s| then null else s[k + 1]
  {
  }

  /** What is left of a chain when the neighbours of position `k` point past it. */
  ghost predicate ChainedAround(s: seq<NodeList>, k: nat)
    requires k < |s|
    reads s`next, s`prev
  {
    && (forall i, j :: 0 <= i < j < |s| && j == i + 1 && i != k && j != k ==> s[i].next == s[j] && s[j].prev == s[i])
    && (0 < k < |s| - 1 ==> s[k - 1].next == s[k + 1] && s[k + 1].prev == s[k - 1])
    && (k > 0 ==> s[0].prev == null)
    && (k == 0 && |s| > 1 ==> s[1].prev == null)
    && (k + 1 < |s| ==> s[|s| - 1].next == null)
    && (k + 1 == |s| > 1 ==> s[k - 1].next == null)
  }

  lemma Bridged(s: seq<NodeList>, k: nat)
    requires k < |s| && ChainedAround(s, k)
    ensures Chained(RemoveAt(s, k))
  {
    var r := RemoveAt(s, k);
    assert forall i :: 0 <= i < |r| ==> r[i] == s[if i < k then i else i + 1];
  }

  ghost predicate FreeChainedAround(s: seq<NodeList>, k: nat)
    requires k < |s|
    reads s`freeNext, s`freePrev
  {
    && (forall i, j :: 0 <= i < j < |s| && j == i + 1 && i != k && j != k ==>
          s[i].freeNext == s[j] && s[j].freePrev == s[i])
    && (0 < k < |s| - 1 ==> s[k - 1].freeNext == s[k + 1] && s[k + 1].freePrev == s[k - 1])
    && (k > 0 ==> s[0].freePrev == null)
    && (k == 0 && |s| > 1 ==> s[1].freePrev == null)
    && (k + 1 < |s| ==> s[|s| - 1].freeNext == null)
    && (k + 1 == |s| > 1 ==> s[k - 1].freeNext == null)
  }

  lemma FreeRejoined(s: seq<NodeList>, m: nat)
    requires FreeChainedWithout(s, m)
    ensures FreeChained(Without(s, m))
  {
    if m < |s| {
      FreeBridged(s, m);
    }
  }

  lemma FreeBridged(s: seq<NodeList>, k: nat)
    requires k < |s| && FreeChainedAround(s, k)
    ensures FreeChained(RemoveAt(s, k))
  {
    var r := RemoveAt(s, k);
    assert forall i :: 0 <= i < |r| ==> r[i] == s[if i < k then i else i + 1];
  }

  ghost predicate FreeChainedWithout(s: seq<NodeList>, m: nat)
    reads s`freeNext, s`freePrev
  {
    if m < |s| then FreeChainedAround(s, m) else FreeChained(s)
  }

  /** What heads a free chain once the block at `m` is taken off. */
  lemma WithoutHead(s: seq<NodeList>, m: nat, block: NodeList)
    requires FreeChained(s) && Distinct(s) && OnAt(s, m, block)
    ensures Head(Without(s, m)) == if Head(s) == block then block.freeNext else Head(s)
  {
    if m < |s| {
      FreeNeighbours(s, m);
      RemoveAtEnds(s, m);
    }
  }

  ghost predicate Inside(free: seq<NodeList>, all: seq<NodeList>) {
    forall i :: 0 <= i < |free| ==> free[i] in all
  }

  /** Blocks off the free chain have no free links. */
  ghost predicate OffLinks(all: seq<NodeList>, free: seq<NodeList>)
    reads all`freeNext, all`freePrev
  {
    forall b :: b in all && b !in free ==> b.freeNext == null && b.freePrev == null
  }

  /** Position `m` of the free chain is that of `block`; past the end means that it is not on it. */
  ghost predicate OnAt(free: seq<NodeList>, m: nat, block: NodeList) {
    m <= |free| && if m < |free| then free[m] == block else block !in free
  }

  /** A free chain after the block at `m`, if any, is taken off. */
  ghost function Without(free: seq<NodeList>, m: nat): seq<NodeList> {
    if m < |free| then RemoveAt(free, m) else free
  }

  lemma WithoutIn(free: seq<NodeList>, m: nat, block: NodeList)
    requires Distinct(free) && OnAt(free, m, block)
    ensures Distinct(Without(free, m))
    ensures forall b :: b in Without(free, m) ==> b in free && b != block
    ensures forall b :: b in free && b != block ==> b in Without(free, m)
  {
    if m < |free| {
      RemoveAtIn(free, m);
    }
  }

  lemma RemovedInside(all: seq<NodeList>, free: seq<NodeList>, k: nat, m: nat)
    requires k < |all| && OnAt(free, m, all[k]) && Distinct(all) && Distinct(free)
    requires Inside(free, all)
    ensures Inside(Without(free, m), RemoveAt(all, k))
    ensures OffLinks(all, free) ==> OffLinks(RemoveAt(all, k), Without(free, m))
  {
    RemoveAtIn(all, k);
    WithoutIn(free, m, all[k]);
    hide RemoveAt, Distinct, Without;
    var rest := Without(free, m);
    forall i | 0 <= i < |rest| ensures rest[i] in RemoveAt(all, k) {
      assert rest[i] in rest;
    }
  }

  lemma AddedInside(all: seq<NodeList>, free: seq<NodeList>, block: NodeList)
    requires Inside(free, all) && OffLinks(all, free) && block.freeNext == null && block.freePrev == null
    ensures Inside(free, all + [block]) && OffLinks(all + [block], free)
  {
    assert forall b :: b in all + [block] ==> b in all || b == block;
    assert forall i :: 0 <= i < |free| ==> free[i] in all && free[i] in all + [block];
  }

  ghost function Head(s: seq<NodeList>): NodeList? {
    if s == [] then null else s[0]
  }

  /** What the pool-level invariants say about a block, as a value. */
  datatype Summary = Summary(nodes: seq<Node>, full: bool, hasUsed: bool, hasFree: bool)
  {
    ghost predicate Valid() {
      && |nodes| == GLOBAL_BLOCK_SIZE
      && (hasUsed <==> exists i: nat :: i < |nodes| && nodes[i].isUsing)
      && (full && !hasFree ==> forall i: nat :: i < |nodes| ==> nodes[i].isUsing)
      && (full ==> hasUsed || hasFree)
    }
  }

  ghost function SummaryOf(b: NodeList): Summary
    reads b`nodes, b`index, b`used, b`free
  {
    Summary(b.nodes, b.IsFull(), b.used != [], b.free != [])
  }

  type View = map<NodeList, Summary>

  /** `live` is the abstract state of a pool: the handles in use and what they refer to. */
  ghost predicate LiveInv(view: View, live: map<Handle, Value>) {
    && (forall h :: h in live ==>
          && h.0 in view && h.1 < |view[h.0].nodes| && view[h.0].nodes[h.1].isUsing
          && live[h] == view[h.0].nodes[h.1].obj)
    && (forall b, i: nat :: b in view && i < |view[b].nodes| && view[b].nodes[i].isUsing ==> (b, i) in live)
  }

  /** A block is on the free chain exactly when it has a free node. */
  ghost predicate MemberInv(view: View, freeChain: seq<NodeList>) {
    && (forall b :: b in freeChain ==> b in view)
    && (forall b :: b in view ==> (b in freeChain <==> view[b].hasFree))
  }

  /** Every block but the last is full; only a pool of one block keeps a full block with no live handle. */
  ghost predicate FullInv(view: View, chain: seq<NodeList>) {
    && chain != [] && Distinct(chain)
    && (forall b :: b in view ==> b in chain) && (forall b :: b in chain ==> b in view)
    && (forall b :: b in view ==> view[b].Valid())
    && (forall b :: b in view && b != chain[|chain| - 1] ==> view[b].full)
    && (|chain| > 1 ==> forall b :: b in view && view[b].full ==> view[b].hasUsed)
  }

  /** The slots of `n` blocks. */
  function Capacity(n: nat): nat {
    GLOBAL_BLOCK_SIZE * n
  }

  lemma CapacityStep(n: nat)
    ensures Capacity(n + 1) == Capacity(n) + GLOBAL_BLOCK_SIZE && Capacity(0) == 0
  {
  }

  /** More than the capacity of `n` blocks needs at least one more. */
  lemma BlocksNeeded(peak: nat, n: nat)
    requires peak > Capacity(n)
    ensures BlocksFor(peak) >= n + 1
  {
    var size: int, x := GLOBAL_BLOCK_SIZE, peak + GLOBAL_BLOCK_SIZE - 1;
    var q, rest := x / size, x % size;
    assert x == size * q + rest && rest < size;
    assert q <= n ==> size * q <= size * n;
  }

  lemma BlocksGrow(m: nat, n: nat)
    requires m <= n
    ensures BlocksFor(m) <= BlocksFor(n)
  {
    var size: int := GLOBAL_BLOCK_SIZE;
    var q := (m + size - 1) / size;
    assert size * q <= m + size - 1;
    if q > 0 {
      assert size * (q - 1) == size * q - size;
      BlocksNeeded(n, q - 1);
    }
  }

  lemma AtLeastOne(peak: nat)
    ensures BlocksFor(peak) >= 1
  {
  }

  ghost predicate PeakInv(blocks: nat, live: nat, peak: nat) {
    && live <= peak
    && (blocks > 1 ==> peak > Capacity(blocks - 1))
  }

  ghost predicate WeakInv(view: View, weak: bool) {
    forall b, i: nat :: b in view && i < |view[b].nodes| ==> view[b].nodes[i].isWeak == weak
  }

  ghost predicate PoolInv(view: View, weak: bool, chain: seq<NodeList>, freeChain: seq<NodeList>,
                          live: map<Handle, Value>, peak: nat) {
    && FullInv(view, chain)
    && WeakInv(view, weak)
    && MemberInv(view, freeChain)
    && LiveInv(view, live)
    && PeakInv(|chain|, |live|, peak)
  }

  /** The blocks that `n` handles need; a pool never has fewer than one. */
  function BlocksFor(n: nat): nat {
    Max(1, (n + GLOBAL_BLOCK_SIZE - 1) / GLOBAL_BLOCK_SIZE)
  }

  function Max(a: nat, b: nat): nat {
    if a > b then a else b
  }

  lemma LiveAdd(view: View, live: map<Handle, Value>, b: NodeList, s: Summary, slot: nat)
    requires LiveInv(view, live) && b in view
    requires OthersKept(view[b].nodes, s.nodes, slot) && slot < |s.nodes|
    requires !view[b].nodes[slot].isUsing && s.nodes[slot].isUsing
    ensures (b, slot) !in live
    ensures LiveInv(view[b := s], live[(b, slot) := s.nodes[slot].obj])
  {
  }

  lemma LiveRemove(view: View, live: map<Handle, Value>, b: NodeList, s: Summary, slot: nat)
    requires LiveInv(view, live) && b in view
    requires OthersKept(view[b].nodes, s.nodes, slot) && slot < |s.nodes|
    requires view[b].nodes[slot].isUsing && !s.nodes[slot].isUsing
    ensures (b, slot) in live
    ensures LiveInv(view[b := s], live - {(b, slot)})
  {
  }

  lemma UsedIsSomeHandle(view: View, live: map<Handle, Value>, b: NodeList)
    requires LiveInv(view, live) && b in view && view[b].Valid() && view[b].hasUsed
    ensures live != map[]
  {
    var i: nat :| i < |view[b].nodes| && view[b].nodes[i].isUsing;
    assert (b, i) in live;
  }

  lemma Summarized(b: NodeList)
    requires b.Valid()
    ensures SummaryOf(b).Valid()
  {
    b.Shape();
    assert b.used != [] ==> b.used[0] in b.used;
  }

  lemma SameMembers(view: View, weak: bool, chain: seq<NodeList>, freeChain: seq<NodeList>, live: map<Handle, Value>,
                    peak: nat, b: NodeList, s: Summary)
    requires PoolInv(view, weak, chain, freeChain, live, peak) && b in view && s.hasFree == view[b].hasFree
    ensures MemberInv(view[b := s], freeChain)
  {
  }

  lemma FullKept(view: View, weak: bool, chain: seq<NodeList>, b: NodeList, s: Summary, slot: nat)
    requires FullInv(view, chain) && WeakInv(view, weak) && b in view
    requires OthersKept(view[b].nodes, s.nodes, slot) && s.Valid()
    requires view[b].full ==> s.full
    requires |chain| > 1 && s.full ==> s.hasUsed
    ensures FullInv(view[b := s], chain) && WeakInv(view[b := s], weak)
  {
    hide Distinct, Summary.Valid;
  }

  lemma InitialInv(b: NodeList, s: Summary, weak: bool)
    requires s.Valid() && !s.hasUsed && !s.hasFree
    requires forall i: nat :: i < |s.nodes| ==> s.nodes[i].isWeak == weak
    ensures PoolInv(map[b := s], weak, [b], [], map[], 0)
  {
  }

  lemma PopMembers(view: View, weak: bool, chain: seq<NodeList>, freeChain: seq<NodeList>, live: map<Handle, Value>,
                   peak: nat, b: NodeList, s: Summary, freeChain': seq<NodeList>)
    requires PoolInv(view, weak, chain, freeChain, live, peak)
    requires Distinct(freeChain) && freeChain != [] && b == freeChain[0]
    requires freeChain' == if s.hasFree then freeChain else freeChain[1..]
    ensures MemberInv(view[b := s], freeChain')
  {
    hide FullInv, LiveInv, WeakInv, PeakInv;
    assert freeChain == [b] + freeChain[1..];
    assert forall x :: x in freeChain ==> x == b || x in freeChain[1..];
  }

  lemma PushMembers(view: View, weak: bool, chain: seq<NodeList>, freeChain: seq<NodeList>, live: map<Handle, Value>,
                    peak: nat, b: NodeList, s: Summary, freeChain': seq<NodeList>)
    requires PoolInv(view, weak, chain, freeChain, live, peak) && b in view && s.hasFree
    requires freeChain' == if b in freeChain then freeChain else [b] + freeChain
    ensures MemberInv(view[b := s], freeChain')
  {
    hide FullInv, LiveInv, WeakInv, PeakInv;
    assert forall x :: x in freeChain' ==> x == b || x in freeChain;
    assert b !in freeChain ==> freeChain'[0] == b;
    assert forall x :: x in freeChain ==> x in freeChain';
  }

  /** Handing out a slot of `b` that was not in use. */
  lemma AddInv(view: View, weak: bool, chain: seq<NodeList>, freeChain: seq<NodeList>, live: map<Handle, Value>,
               peak: nat, freeChain': seq<NodeList>, b: NodeList, s: Summary, slot: nat)
    requires PoolInv(view, weak, chain, freeChain, live, peak) && b in view
    requires OthersKept(view[b].nodes, s.nodes, slot) && slot < |s.nodes|
    requires !view[b].nodes[slot].isUsing && s.nodes[slot].isUsing
    requires s.Valid() && (view[b].full ==> s.full) && MemberInv(view[b := s], freeChain')
    ensures (b, slot) !in live
    ensures var live' := live[(b, slot) := s.nodes[slot].obj];
            PoolInv(view[b := s], weak, chain, freeChain', live', Max(peak, |live'|))
  {
    assert s.hasUsed;
    hide FullInv, LiveInv, WeakInv, MemberInv, OthersKept, Summary.Valid;
    LiveAdd(view, live, b, s, slot);
    FullKept(view, weak, chain, b, s, slot);
  }

  /** Every slot of the given blocks. */
  ghost function AllSlots(blocks: seq<NodeList>): set<Handle> {
    if blocks == [] then {} else AllSlots(blocks[1..]) + BlockSlots(blocks[0], GLOBAL_BLOCK_SIZE)
  }

  ghost function BlockSlots(b: NodeList, n: nat): set<Handle> {
    if n == 0 then {} else BlockSlots(b, n - 1) + {(b, n - 1)}
  }

  lemma {:induction false} BlockSlotsSize(b: NodeList, n: nat)
    ensures |BlockSlots(b, n)| == n
    ensures forall h :: h in BlockSlots(b, n) ==> h.0 == b && h.1 < n
    ensures forall i: nat :: i < n ==> (b, i) in BlockSlots(b, n)
  {
    if n > 0 {
      BlockSlotsSize(b, n - 1);
    }
  }

  lemma {:induction false} AllSlotsSize(blocks: seq<NodeList>)
    requires Distinct(blocks)
    ensures |AllSlots(blocks)| == Capacity(|blocks|)
    ensures forall h :: h in AllSlots(blocks) ==> h.0 in blocks && h.1 < GLOBAL_BLOCK_SIZE
    ensures forall b, i: nat :: b in blocks && i < GLOBAL_BLOCK_SIZE ==> (b, i) in AllSlots(blocks)
  {
    if blocks != [] {
      var rest, first := AllSlots(blocks[1..]), BlockSlots(blocks[0], GLOBAL_BLOCK_SIZE);
      CapacityStep(|blocks| - 1);
      assert AllSlots(blocks) == rest + first;
      assert blocks[0] !in blocks[1..];
      assert forall b :: b in blocks ==> b == blocks[0] || b in blocks[1..];
      AllSlotsSize(blocks[1..]);
      BlockSlotsSize(blocks[0], GLOBAL_BLOCK_SIZE);
      hide AllSlots, BlockSlots, Distinct, Capacity;
      assert rest !! first;
    }
  }

  /** When no block can hand out a slot, every slot of every block is a live handle. */
  lemma AllLive(view: View, chain: seq<NodeList>, live: map<Handle, Value>)
    requires FullInv(view, chain) && LiveInv(view, live)
    requires forall b :: b in view ==> view[b].full && !view[b].hasFree
    ensures live.Keys == AllSlots(chain) && |live| == Capacity(|chain|)
  {
    hide AllSlots, Distinct, Capacity;
    AllSlotsSize(chain);
    var slots := AllSlots(chain);
    forall h | h in live
      ensures h in slots
    {
      assert h == (h.0, h.1) && h.0 in chain;
    }
    forall h | h in slots
      ensures h in live
    {
      assert h == (h.0, h.1) && view[h.0].Valid();
    }
    assert live.Keys == slots;
  }

  /** Adding a block, which happens only when every slot there is is live. */
  lemma GrowInv(view: View, weak: bool, chain: seq<NodeList>, live: map<Handle, Value>, peak: nat,
                b: NodeList, s: Summary, slot: nat)
    requires PoolInv(view, weak, chain, [], live, peak) && view[chain[|chain| - 1]].full && b !in view
    requires s.Valid() && s.hasUsed && !s.hasFree && slot < |s.nodes|
    requires forall i: nat :: i < |s.nodes| ==> s.nodes[i].isWeak == weak && (s.nodes[i].isUsing <==> i == slot)
    ensures |live| == Capacity(|chain|) && (b, slot) !in live
    ensures var live' := live[(b, slot) := s.nodes[slot].obj];
            PoolInv(view[b := s], weak, chain + [b], [], live', Max(peak, |live'|))
  {
    hide LiveInv, FullInv, WeakInv, MemberInv, Summary.Valid, Capacity;
    NoneFree(view, chain);
    AllLive(view, chain, live);
    GrowFull(view, chain, b, s);
    GrowLive(view, live, b, s, slot);
    GrowRest(view, weak, b, s);
    assert |live[(b, slot) := s.nodes[slot].obj]| == |live| + 1;
  }

  lemma GrowRest(view: View, weak: bool, b: NodeList, s: Summary)
    requires WeakInv(view, weak) && MemberInv(view, []) && b !in view && !s.hasFree
    requires forall i: nat :: i < |s.nodes| ==> s.nodes[i].isWeak == weak
    ensures WeakInv(view[b := s], weak) && MemberInv(view[b := s], [])
  {
  }

  lemma NoneFree(view: View, chain: seq<NodeList>)
    requires FullInv(view, chain) && MemberInv(view, []) && view[chain[|chain| - 1]].full
    ensures forall b :: b in view ==> view[b].full && !view[b].hasFree && view[b].hasUsed
  {
    forall b | b in view
      ensures view[b].full && !view[b].hasFree && view[b].hasUsed
    {
      assert b !in [];
      assert view[b].Valid();
    }
  }

  lemma GrowFull(view: View, chain: seq<NodeList>, b: NodeList, s: Summary)
    requires FullInv(view, chain) && b !in view && s.Valid() && s.hasUsed
    requires forall b :: b in view ==> view[b].full && view[b].hasUsed
    ensures FullInv(view[b := s], chain + [b])
  {
    assert forall x :: x in chain + [b] ==> x in chain || x == b;
    assert b !in chain;
    assert b in chain + [b];
    assert forall x :: x in chain ==> x in chain + [b];
    hide Summary.Valid;
  }

  lemma GrowLive(view: View, live: map<Handle, Value>, b: NodeList, s: Summary, slot: nat)
    requires LiveInv(view, live) && b !in view && slot < |s.nodes|
    requires forall i: nat :: i < |s.nodes| ==> (s.nodes[i].isUsing <==> i == slot)
    ensures (b, slot) !in live
    ensures LiveInv(view[b := s], live[(b, slot) := s.nodes[slot].obj])
  {
  }

  /** Taking a handle back, when its block stays. */
  lemma DropInv(view: View, weak: bool, chain: seq<NodeList>, freeChain: seq<NodeList>, live: map<Handle, Value>,
                peak: nat, freeChain': seq<NodeList>, b: NodeList, s: Summary, slot: nat)
    requires PoolInv(view, weak, chain, freeChain, live, peak) && b in view
    requires OthersKept(view[b].nodes, s.nodes, slot) && slot < |s.nodes|
    requires view[b].nodes[slot].isUsing && !s.nodes[slot].isUsing
    requires s.Valid() && s.full == view[b].full && MemberInv(view[b := s], freeChain')
    requires |chain| > 1 && s.full ==> s.hasUsed
    ensures (b, slot) in live
    ensures PoolInv(view[b := s], weak, chain, freeChain', live - {(b, slot)}, peak)
  {
    hide FullInv, LiveInv, WeakInv, MemberInv, OthersKept, Summary.Valid;
    LiveRemove(view, live, b, s, slot);
    FullKept(view, weak, chain, b, s, slot);
    assert |live - {(b, slot)}| == |live| - 1;
  }

  /** Taking the last handle of a full block back, when there is another block. */
  lemma ShrinkInv(view: View, weak: bool, chain: seq<NodeList>, freeChain: seq<NodeList>,
                  live: map<Handle, Value>, peak: nat, k: nat, m: nat, slot: nat)
    requires PoolInv(view, weak, chain, freeChain, live, peak) && Distinct(freeChain) && |chain| > 1
    requires k < |chain| && OnAt(freeChain, m, chain[k]) && chain[k] in view
    requires slot < |view[chain[k]].nodes|
    requires forall i: nat :: i < |view[chain[k]].nodes| ==> (view[chain[k]].nodes[i].isUsing <==> i == slot)
    ensures (chain[k], slot) in live
    ensures PoolInv(view - {chain[k]}, weak, RemoveAt(chain, k), Without(freeChain, m),
                    live - {(chain[k], slot)}, peak)
  {
    hide LiveInv, FullInv, RemoveAt, Distinct, Without;
    var b := chain[k];
    WithoutIn(freeChain, m, b);
    RemoveAtEnds(chain, k);
    ShrinkLive(view, live, b, slot);
    ShrinkFull(view, chain, k);
    assert |live - {(b, slot)}| == |live| - 1;
    assert MemberInv(view - {b}, Without(freeChain, m));
  }

  lemma ShrinkLive(view: View, live: map<Handle, Value>, b: NodeList, slot: nat)
    requires LiveInv(view, live) && b in view && slot < |view[b].nodes|
    requires forall i: nat :: i < |view[b].nodes| ==> (view[b].nodes[i].isUsing <==> i == slot)
    ensures (b, slot) in live && LiveInv(view - {b}, live - {(b, slot)})
  {
  }

  lemma ShrinkFull(view: View, chain: seq<NodeList>, k: nat)
    requires FullInv(view, chain) && k < |chain| && |chain| > 1
    ensures FullInv(view - {chain[k]}, RemoveAt(chain, k))
  {
    RemoveAtIn(chain, k);
    RemoveAtEnds(chain, k);
    hide RemoveAt, Summary.Valid, Distinct;
  }

  /** `after` is `before` without its one occurrence of `x`. */
  ghost predicate Took<T>(before: seq<T>, after: seq<T>, x: T) {
    exists k :: 0 <= k < |before| && before[k] == x && after == RemoveAt(before, k)
  }

  /** Changing a young flag changes nothing a pool relies on. */
  lemma FlagInv(view: View, weak: bool, chain: seq<NodeList>, freeChain: seq<NodeList>, live: map<Handle, Value>,
                peak: nat, b: NodeList, slot: nat, flag: bool)
    requires PoolInv(view, weak, chain, freeChain, live, peak) && b in view && slot < |view[b].nodes|
    ensures var nodes := view[b].nodes;
            PoolInv(view[b := view[b].(nodes := nodes[slot := nodes[slot].(isInYoungList := flag)])],
                    weak, chain, freeChain, live, peak)
  {
    hide FullInv, LiveInv, WeakInv, MemberInv, Summary.Valid;
    var s := view[b].(nodes := view[b].nodes[slot := view[b].nodes[slot].(isInYoungList := flag)]);
    FullSummary(view, chain, b);
    FlagSummary(view[b], slot, flag, s);
    FullSame(view, chain, b, s);
    FlagLive(view, weak, live, b, s);
    SameMembers(view, weak, chain, freeChain, live, peak, b, s);
  }

  lemma FullSummary(view: View, chain: seq<NodeList>, b: NodeList)
    requires FullInv(view, chain) && b in view
    ensures view[b].Valid()
  {
  }

  lemma FlagLive(view: View, weak: bool, live: map<Handle, Value>, b: NodeList, s: Summary)
    requires LiveInv(view, live) && WeakInv(view, weak) && b in view && |s.nodes| == |view[b].nodes|
    requires forall i: nat :: i < |s.nodes| ==>
               && s.nodes[i].isUsing == view[b].nodes[i].isUsing && s.nodes[i].obj == view[b].nodes[i].obj
               && s.nodes[i].isWeak == view[b].nodes[i].isWeak
    ensures LiveInv(view[b := s], live) && WeakInv(view[b := s], weak)
  {
  }

  lemma FlagSummary(s: Summary, slot: nat, flag: bool, s': Summary)
    requires slot < |s.nodes| && s.Valid()
    requires s' == s.(nodes := s.nodes[slot := s.nodes[slot].(isInYoungList := flag)])
    ensures s'.Valid()
  {
    assert forall i: nat :: i < |s.nodes| ==> s'.nodes[i].isUsing == s.nodes[i].isUsing;
    if s.hasUsed {
      var i: nat :| i < |s.nodes| && s.nodes[i].isUsing;
      assert s'.nodes[i].isUsing;
    }
  }

  lemma FullSame(view: View, chain: seq<NodeList>, b: NodeList, s: Summary)
    requires FullInv(view, chain) && b in view && s.Valid()
    requires s.full == view[b].full && s.hasUsed == view[b].hasUsed
    ensures FullInv(view[b := s], chain)
  {
    hide Distinct, Summary.Valid;
  }

  class Pool {
    var top: NodeList
    var last: NodeList
    var freeHead: NodeList?
    const weak: bool
    const allocator: NativeAreaAllocator
    ghost var chain: seq<NodeList>
    ghost var freeChain: seq<NodeList>
    /** The blocks of the chain, as a footprint. */
    ghost var repr: set<NodeList>
    /** The handles in use and what they refer to. */
    ghost var live: map<Handle, Value>
    /** The largest number of handles that were live at the same time. */
    ghost var peak: nat

    constructor (allocator: NativeAreaAllocator, weak: bool)
      modifies allocator
      ensures this.allocator == allocator
      ensures allocator.issued == old(allocator.issued) + repr && allocator.outstanding == old(allocator.outstanding) + repr
      ensures this.weak == weak && Valid() && live == map[] && peak == 0 && fresh(repr) && |chain| == 1 && repr == {chain[0]}
      ensures forall i: nat :: i < |chain[0].nodes| ==> !chain[0].nodes[i].isInYoungList
    {
      var block := allocator.New(weak);
      this.weak, this.allocator := weak, allocator;
      top, last, freeHead := block, block, null;
      chain, freeChain, repr, live, peak := [block], [], {block}, map[], 0;
      new;
      hide NodeList.Valid;
      Summarized(block);
      InitialInv(block, SummaryOf(block), weak);
      assert View() == map[block := SummaryOf(block)];
    }

    ghost predicate LinksValid()
      reads this`top, this`last, this`chain, chain`next, chain`prev
    {
      && chain != [] && top == chain[0] && last == chain[|chain| - 1]
      && Distinct(chain) && Chained(chain)
    }

    ghost predicate FreeLinksValid()
      reads this`freeHead, this`chain, this`freeChain, chain`freeNext, chain`freePrev
    {
      && freeHead == Head(freeChain)
      && Inside(freeChain, chain)
      && Distinct(freeChain) && FreeChained(freeChain) && OffLinks(chain, freeChain)
    }

    ghost predicate BlocksValid()
      reads this`chain, chain`nodes, chain`freeList, chain`usedList, chain`index, chain`used, chain`free
      reads chain`deleted
    {
      forall b :: b in chain ==> b.Valid() && !b.deleted
    }

    ghost function View(): View
      reads this`chain, chain`nodes, chain`index, chain`used, chain`free
    {
      map b | b in chain :: SummaryOf(b)
    }

    ghost predicate ReprValid()
      reads this`chain, this`repr
    {
      && (forall b :: b in chain ==> b in repr)
      && (forall b :: b in repr ==> b in chain)
    }

    ghost predicate Valid()
      reads this, repr
    {
      && ReprValid()
      && LinksValid() && FreeLinksValid() && BlocksValid()
      && PoolInv(View(), weak, chain, freeChain, live, peak)
    }

    lemma Ends()
      requires LinksValid()
      ensures chain != [] && last in chain && last == chain[|chain| - 1]
    {
    }

    lemma ViewAt(b: NodeList)
      requires b in chain
      ensures b in View() && View()[b] == SummaryOf(b)
    {
    }

    method Append(block: NodeList)
      requires LinksValid() && block !in chain
      requires !last.deleted && !block.deleted
      modifies this`last, this`chain, last`next, block`next, block`prev
      ensures LinksValid() && chain == old(chain) + [block]
    {
      block.LinkTo(last);
      last := block;
      chain := chain + [block];
    }

    method PushFree(block: NodeList)
      requires FreeLinksValid() && block !in freeChain && block in chain
      modifies this`freeHead, this`freeChain, block`freeNext, Opt(freeHead)`freePrev
      ensures FreeLinksValid() && freeChain == [block] + old(freeChain)
    {
      block.freeNext := freeHead;
      if freeHead != null {
        freeHead.freePrev := block;
      }
      freeHead := block;
      freeChain := [block] + freeChain;
    }

    method PopFree()
      requires FreeLinksValid() && freeHead != null && freeHead in chain
      modifies this`freeHead, this`freeChain, freeHead`freeNext, freeHead`freePrev, Opt(freeHead.freeNext)`freePrev
      ensures FreeLinksValid() && freeChain == old(freeChain)[1..]
    {
      var next := freeHead.freeNext;
      assert |freeChain| > 1 ==> next == freeChain[1];
      freeHead.freeNext := null;
      freeHead.freePrev := null;
      if next != null {
        next.freePrev := null;
      }
      freeHead := next;
      freeChain := freeChain[1..];
    }

    /** `RemoveList` on the block at position `k` of the chain and `m` of the free chain. */
    method Detach(block: NodeList, ghost k: nat, ghost m: nat)
      requires Distinct(chain) && Chained(chain) && Distinct(freeChain) && FreeChained(freeChain) && !block.deleted
      requires OffLinks(chain, freeChain)
      requires k < |chain| && chain[k] == block && OnAt(freeChain, m, block)
      modifies Opt(block.next)`prev, Opt(block.prev)`next, Opt(block.freeNext)`freePrev, Opt(block.freePrev)`freeNext
      ensures ChainedAround(chain, k) && FreeChainedWithout(freeChain, m)
      ensures OffLinks(chain, freeChain)
      ensures block.next == old(block.next) && block.prev == old(block.prev)
      ensures block.freeNext == old(block.freeNext) && block.freePrev == old(block.freePrev)
    {
      Neighbours(chain, k);
      if m < |freeChain| {
        FreeNeighbours(freeChain, m);
      }
      block.RemoveList();
      assert ChainedAround(chain, k) by {
        hide FreeChained, OffLinks;
      }
      assert FreeChainedWithout(freeChain, m) && OffLinks(chain, freeChain) by {
        hide Chained, ChainedAround;
      }
    }

    /** Moves the pool's own pointers off a block that is no longer in either chain. */
    method Repoint(block: NodeList, ghost c: seq<NodeList>, ghost f: seq<NodeList>)
      requires c != [] && Distinct(c) && Chained(c) && Distinct(f) && FreeChained(f)
      requires c[0] == if top == block then block.next else top
      requires c[|c| - 1] == if last == block then block.prev else last
      requires Head(f) == if freeHead == block then block.freeNext else freeHead
      requires OffLinks(c, f) && Inside(f, c)
      modifies this`top, this`last, this`freeHead, this`chain, this`freeChain
      ensures LinksValid() && FreeLinksValid() && chain == c && freeChain == f
    {
      if freeHead == block {
        freeHead := block.freeNext;
      }
      if top == block {
        top := block.next;
      }
      if last == block {
        last := block.prev;
      }
      chain, freeChain := c, f;
    }

    method RemoveBlock(block: NodeList, ghost k: nat, ghost m: nat)
      requires LinksValid() && FreeLinksValid() && !block.deleted
      requires |chain| > 1 && k < |chain| && chain[k] == block && OnAt(freeChain, m, block)
      modifies this`top, this`last, this`freeHead, this`chain, this`freeChain
      modifies Opt(block.next)`prev, Opt(block.prev)`next, Opt(block.freeNext)`freePrev, Opt(block.freePrev)`freeNext
      ensures LinksValid() && FreeLinksValid()
      ensures chain == RemoveAt(old(chain), k) && freeChain == Without(old(freeChain), m)
    {
      hide Chained, FreeChained, ChainedAround, FreeChainedAround, RemoveAt, OffLinks, Inside, Without, OnAt, Head;
      Neighbours(chain, k);
      WithoutHead(freeChain, m, block);
      RemoveAtIn(chain, k);
      WithoutIn(freeChain, m, block);
      RemoveAtEnds(chain, k);
      ghost var c, f := RemoveAt(chain, k), Without(freeChain, m);
      Detach(block, k, m);
      RemovedInside(chain, freeChain, k, m);
      Bridged(chain, k);
      FreeRejoined(freeChain, m);
      Repoint(block, c, f);
    }

    /** Books a handle that a block has just handed out. */
    ghost method Book(view: View, h: Handle, value: Value, freeChain0: seq<NodeList>)
      requires PoolInv(view, weak, chain, freeChain0, live, peak) && h.0 in view
      requires View() == view[h.0 := SummaryOf(h.0)] && h.0.Valid()
      requires OthersKept(view[h.0].nodes, h.0.nodes, h.1) && h.1 < |h.0.nodes|
      requires !view[h.0].nodes[h.1].isUsing && h.0.nodes[h.1].isUsing && h.0.nodes[h.1].obj == value
      requires (view[h.0].full ==> h.0.IsFull()) && MemberInv(View(), freeChain)
      modifies this`live, this`peak
      ensures PoolInv(View(), weak, chain, freeChain, live, peak)
      ensures h !in old(live) && live == old(live)[h := value] && peak == Max(old(peak), |live|)
    {
      hide PoolInv, OthersKept, Summary.Valid, MemberInv, NodeList.Valid;
      Summarized(h.0);
      AddInv(view, weak, chain, freeChain0, live, peak, freeChain, h.0, SummaryOf(h.0), h.1);
      live := live[h := value];
      peak := Max(peak, |live|);
    }

    method TakeLast(value: Value) returns (h: Handle)
      requires LinksValid() && FreeLinksValid() && BlocksValid() && !last.IsFull()
      modifies last`nodes, last`usedList, last`index, last`used
      ensures LinksValid() && FreeLinksValid() && BlocksValid()
      ensures h.0 == last && last.Valid() && View() == old(View())[last := SummaryOf(last)]
      ensures OthersKept(old(last.nodes), last.nodes, h.1) && h.1 < |last.nodes|
      ensures !old(last.nodes)[h.1].isUsing && last.nodes[h.1].isUsing && last.nodes[h.1].obj == value
    {
      hide LinksValid, FreeLinksValid, OthersKept, NodeList.Valid;
      Ends();
      var r := last.NewNode(value);
      h := (last, r.value);
    }

    method NewInLast(value: Value) returns (h: Handle)
      requires Valid() && !last.IsFull()
      modifies this`peak, this`live, last`nodes, last`usedList, last`index, last`used
      ensures Valid() && h !in old(live) && live == old(live)[h := value]
      ensures peak == Max(old(peak), |live|)
      ensures h.0 == last && OthersKept(old(last.nodes), last.nodes, h.1)
    {
      hide LinksValid, FreeLinksValid, BlocksValid, View, PoolInv;
      hide NodeList.Valid, Summary.Valid, OthersKept, MemberInv;
      ghost var view := View();
      Ends();
      ViewAt(last);
      h := TakeLast(value);
      SameMembers(view, weak, chain, freeChain, live, peak, last, SummaryOf(last));
      Book(view, h, value, freeChain);
    }

    lemma FreeEmpty()
      requires FreeLinksValid() && freeHead == null
      ensures freeChain == []
    {
    }

    lemma FreeHeadFacts()
      requires Valid() && freeHead != null
      ensures freeHead in chain && Distinct(freeChain) && freeChain != [] && freeHead == freeChain[0]
      ensures freeHead.free != [] && freeHead.Valid() && !freeHead.deleted
    {
      assert SummaryOf(freeHead) == View()[freeHead];
    }

    method TakeFree(value: Value) returns (h: Handle)
      requires LinksValid() && FreeLinksValid() && BlocksValid()
      requires freeHead != null && freeHead in chain && freeHead.free != []
      modifies this`freeHead, this`freeChain
      modifies freeHead`nodes, freeHead`usedList, freeHead`freeList, freeHead`used, freeHead`free
      modifies freeHead`freeNext, freeHead`freePrev, Opt(freeHead.freeNext)`freePrev
      ensures LinksValid() && FreeLinksValid() && BlocksValid()
      ensures h.0 == old(freeHead) && h.0.Valid() && View() == old(View())[h.0 := SummaryOf(h.0)]
      ensures OthersKept(old(freeHead.nodes), h.0.nodes, h.1) && h.1 < |h.0.nodes|
      ensures !old(freeHead.nodes)[h.1].isUsing && h.0.nodes[h.1].isUsing && h.0.nodes[h.1].obj == value
      ensures freeChain == if h.0.free == [] then old(freeChain)[1..] else old(freeChain)
    {
      hide LinksValid, FreeChained, OthersKept, BlockInv, Distinct;
      var block := freeHead;
      var r := block.GetFreeNode(value);
      h := (block, r.value);
      if !block.HasFreeNode() {
        PopFree();
      }
    }

    method NewFromFree(value: Value) returns (h: Handle)
      requires Valid() && freeHead != null
      modifies this`peak, this`live, this`freeHead, this`freeChain
      modifies freeHead`nodes, freeHead`usedList, freeHead`freeList, freeHead`used, freeHead`free
      modifies freeHead`freeNext, freeHead`freePrev, Opt(freeHead.freeNext)`freePrev
      ensures Valid() && h !in old(live) && live == old(live)[h := value]
      ensures peak == Max(old(peak), |live|)
      ensures h.0 == old(freeHead) && OthersKept(old(freeHead.nodes), h.0.nodes, h.1)
    {
      hide LinksValid, FreeLinksValid, PoolInv, NodeList.Valid, Summary.Valid, OthersKept, MemberInv, Distinct;
      hide BlocksValid, View;
      ghost var view, freeChain0 := View(), freeChain;
      FreeHeadFacts();
      ViewAt(freeHead);
      h := TakeFree(value);
      PopMembers(view, weak, chain, freeChain0, live, peak, h.0, SummaryOf(h.0), freeChain);
      Book(view, h, value, freeChain0);
    }

    /** Puts a new block at the end of the chain. */
    method AddBlock() returns (block: NodeList)
      requires LinksValid() && FreeLinksValid() && BlocksValid()
      modifies this`last, this`chain, last`next, allocator
      ensures LinksValid() && FreeLinksValid() && BlocksValid()
      ensures allocator.issued == old(allocator.issued) + {block}
      ensures allocator.outstanding == old(allocator.outstanding) + {block}
      ensures fresh(block) && block == last && chain == old(chain) + [block]
      ensures block.used == [] && block.free == [] && block.index == 0
      ensures |block.nodes| == GLOBAL_BLOCK_SIZE
      ensures forall i: nat :: i < |block.nodes| ==>
                block.nodes[i].isWeak == weak && !block.nodes[i].isInYoungList && !block.nodes[i].isUsing
    {
      hide LinksValid, FreeChained, Inside, OffLinks, NodeList.Valid, Distinct;
      block := allocator.New(weak);
      block.Shape();
      AddedInside(chain, freeChain, block);
      Ends();
      Append(block);
    }

    /** Adds a block and hands out its first slot. */
    method Extend(value: Value) returns (h: Handle)
      requires LinksValid() && FreeLinksValid() && BlocksValid()
      modifies this`last, this`chain, last`next, allocator
      ensures LinksValid() && FreeLinksValid() && BlocksValid()
      ensures allocator.issued == old(allocator.issued) + {h.0}
      ensures allocator.outstanding == old(allocator.outstanding) + {h.0}
      ensures fresh(h.0) && chain == old(chain) + [h.0] && View() == old(View())[h.0 := SummaryOf(h.0)]
      ensures h.0 !in old(View()) && h.0.Valid()
      ensures h.0.used != [] && h.0.free == [] && h.1 < |h.0.nodes| && h.0.nodes[h.1].obj == value
      ensures forall i: nat :: i < |h.0.nodes| ==>
                && h.0.nodes[i].isWeak == weak && (h.0.nodes[i].isUsing <==> i == h.1)
                && !h.0.nodes[i].isInYoungList
    {
      hide LinksValid, FreeLinksValid, NodeList.Valid;
      var block := AddBlock();
      var r := last.NewNode(value);
      h := (block, r.value);
    }

    /** Books the first handle of a block that was just added behind `chain0`. */
    ghost method BookFirst(view: View, chain0: seq<NodeList>, h: Handle, value: Value)
      requires PoolInv(view, weak, chain0, [], live, peak) && chain0 != [] && freeChain == []
      requires chain0[|chain0| - 1] in view && view[chain0[|chain0| - 1]].full && h.0 !in view
      requires chain == chain0 + [h.0] && View() == view[h.0 := SummaryOf(h.0)] && h.0.Valid()
      requires h.0.used != [] && h.0.free == [] && h.1 < |h.0.nodes| && h.0.nodes[h.1].obj == value
      requires forall i: nat :: i < |h.0.nodes| ==>
                 h.0.nodes[i].isWeak == weak && (h.0.nodes[i].isUsing <==> i == h.1)
      modifies this`live, this`peak
      ensures PoolInv(View(), weak, chain, freeChain, live, peak)
      ensures h !in old(live) && live == old(live)[h := value] && peak == Max(old(peak), |live|)
      ensures |old(live)| == Capacity(|chain0|)
    {
      hide PoolInv, NodeList.Valid, Summary.Valid, Capacity;
      Summarized(h.0);
      GrowInv(view, weak, chain0, live, peak, h.0, SummaryOf(h.0), h.1);
      live := live[h := value];
      peak := Max(peak, |live|);
    }

    method NewInBlock(value: Value) returns (h: Handle)
      requires Valid() && freeHead == null && last.IsFull()
      modifies this`last, this`chain, this`repr, this`live, this`peak, last`next, allocator
      ensures allocator.issued == old(allocator.issued) + {h.0}
      ensures allocator.outstanding == old(allocator.outstanding) + {h.0}
      ensures Valid() && h !in old(live) && live == old(live)[h := value]
      ensures peak == Max(old(peak), |live|)
      ensures fresh(h.0) && chain == old(chain) + [h.0] && repr == old(repr) + {h.0}
      ensures |old(live)| == Capacity(|old(chain)|)
      ensures forall i: nat :: i < |h.0.nodes| ==> !h.0.nodes[i].isInYoungList
    {
      hide LinksValid, FreeLinksValid, PoolInv, NodeList.Valid, Capacity, BlocksValid, View;
      ghost var view, chain0 := View(), chain;
      Ends();
      FreeEmpty();
      ViewAt(last);
      h := Extend(value);
      repr := repr + {h.0};
      BookFirst(view, chain0, h, value);
    }

    /** The source's test for "not on the free chain" is exact. */
    lemma OffFreeChain(block: NodeList)
      requires FreeLinksValid() && block in chain
      ensures block != freeHead && block.freeNext == null && block.freePrev == null <==> block !in freeChain
    {
      if block in freeChain {
        var m :| 0 <= m < |freeChain| && freeChain[m] == block;
        FreeNeighbours(freeChain, m);
      }
    }

    lemma OneBlock()
      requires LinksValid()
      ensures top == last <==> |chain| == 1
    {
    }

    method AddToFreeChain(block: NodeList)
      requires FreeLinksValid() && block in chain
      modifies this`freeHead, this`freeChain, block`freeNext, Opt(freeHead)`freePrev
      ensures FreeLinksValid()
      ensures freeChain == if block in old(freeChain) then old(freeChain) else [block] + old(freeChain)
    {
      OffFreeChain(block);
      if block != freeHead && block.freeNext == null && block.freePrev == null {
        PushFree(block);
      }
    }

    /** Hands a slot back to its block. */
    method FreeSlot(h: Handle)
      requires LinksValid() && FreeLinksValid() && BlocksValid()
      requires h.0 in chain && h.1 < |h.0.nodes| && h.0.nodes[h.1].isUsing
      modifies h.0`nodes, h.0`usedList, h.0`freeList, h.0`used, h.0`free
      ensures LinksValid() && FreeLinksValid() && BlocksValid()
      ensures View() == old(View())[h.0 := SummaryOf(h.0)]
      ensures OthersKept(old(h.0.nodes), h.0.nodes, h.1) && h.1 < |h.0.nodes| == |old(h.0.nodes)|
      ensures !h.0.nodes[h.1].isUsing
      ensures h.0.free == [h.1] + old(h.0.free) && Took(old(h.0.used), h.0.used, h.1)
    {
      hide LinksValid, FreeLinksValid, BlockInv;
      h.0.Shape();
      ghost var k :| 0 <= k < |h.0.used| && h.0.used[k] == h.1;
      h.0.FreeNode(h.1, k);
    }

    ghost method Strike(view: View, h: Handle, freeChain0: seq<NodeList>)
      requires PoolInv(view, weak, chain, freeChain0, live, peak) && h.0 in view
      requires View() == view[h.0 := SummaryOf(h.0)] && h.0.Valid()
      requires OthersKept(view[h.0].nodes, h.0.nodes, h.1) && h.1 < |h.0.nodes|
      requires view[h.0].nodes[h.1].isUsing && !h.0.nodes[h.1].isUsing
      requires view[h.0].full == h.0.IsFull() && MemberInv(View(), freeChain)
      requires |chain| > 1 && h.0.IsFull() ==> h.0.used != []
      modifies this`live
      ensures PoolInv(View(), weak, chain, freeChain, live, peak)
      ensures h in old(live) && live == old(live) - {h}
    {
      hide PoolInv, OthersKept, Summary.Valid, MemberInv, NodeList.Valid;
      Summarized(h.0);
      DropInv(view, weak, chain, freeChain0, live, peak, freeChain, h.0, SummaryOf(h.0), h.1);
      live := live - {h};
    }

    method DisposeKeep(h: Handle, ghost view: View)
      requires ReprValid() && LinksValid() && FreeLinksValid() && BlocksValid()
      requires PoolInv(view, weak, chain, freeChain, live, peak) && h.0 in view && h.0 in chain
      requires View() == view[h.0 := SummaryOf(h.0)]
      requires OthersKept(view[h.0].nodes, h.0.nodes, h.1) && h.1 < |h.0.nodes|
      requires view[h.0].nodes[h.1].isUsing && !h.0.nodes[h.1].isUsing && h.0.free != []
      requires view[h.0].full == h.0.IsFull() && h.0.Valid()
      requires |chain| > 1 && h.0.IsFull() ==> h.0.used != []
      modifies this`live, this`freeHead, this`freeChain, h.0`freeNext, Opt(freeHead)`freePrev
      ensures Valid() && h in old(live) && live == old(live) - {h}
    {
      hide LinksValid, FreeLinksValid, BlocksValid, View, PoolInv;
      hide NodeList.Valid, Summary.Valid, OthersKept, MemberInv;
      ghost var freeChain0 := freeChain;
      AddToFreeChain(h.0);
      PushMembers(view, weak, chain, freeChain0, live, peak, h.0, SummaryOf(h.0), freeChain);
      Strike(view, h, freeChain0);
    }

    lemma OnlyUser(view: View, h: Handle)
      requires h.0.Valid() && h.0.used == [] && h.0 in view && h.1 < |h.0.nodes| == |view[h.0].nodes|
      requires OthersKept(view[h.0].nodes, h.0.nodes, h.1) && view[h.0].nodes[h.1].isUsing
      ensures forall i: nat :: i < |view[h.0].nodes| ==> (view[h.0].nodes[i].isUsing <==> i == h.1)
    {
      hide BlockInv;
      h.0.Shape();
    }

    /** Where the block is on the free chain; a block of one slot that was in use is not on it at all. */
    lemma FreePosition(b: NodeList) returns (m: nat)
      requires FreeLinksValid()
      ensures OnAt(freeChain, m, b) && Distinct(freeChain)
    {
      if b in freeChain {
        m :| 0 <= m < |freeChain| && freeChain[m] == b;
      } else {
        m := |freeChain|;
      }
    }

    lemma RestOfChain(k: nat)
      requires LinksValid() && k < |chain|
      ensures forall b :: b in RemoveAt(chain, k) ==> b in chain && b != chain[k]
      ensures forall b :: b in chain && b != chain[k] ==> b in RemoveAt(chain, k)
    {
      RemoveAtIn(chain, k);
    }

    method UnlinkBlock(block: NodeList, ghost k: nat, ghost m: nat)
      requires LinksValid() && FreeLinksValid() && BlocksValid() && !block.deleted
      requires |chain| > 1 && k < |chain| && chain[k] == block && OnAt(freeChain, m, block)
      modifies this`top, this`last, this`freeHead, this`chain, this`freeChain
      modifies Opt(block.next)`prev, Opt(block.prev)`next, Opt(block.freeNext)`freePrev, Opt(block.freePrev)`freeNext
      ensures LinksValid() && FreeLinksValid() && BlocksValid()
      ensures chain == RemoveAt(old(chain), k) && freeChain == Without(old(freeChain), m)
      ensures View() == old(View()) - {block} && block !in chain
    {
      hide LinksValid, FreeLinksValid, NodeList.Valid, RemoveAt, Without, OnAt;
      RestOfChain(k);
      RemoveBlock(block, k, m);
    }

    /** Unlinks the block whose last handle was just handed back. */
    method DisposeBlock(h: Handle, ghost view: View)
      requires ReprValid() && LinksValid() && FreeLinksValid() && BlocksValid() && |chain| > 1
      requires PoolInv(view, weak, chain, freeChain, live, peak) && h.0 in view && h.0 in chain
      requires View() == view[h.0 := SummaryOf(h.0)]
      requires OthersKept(view[h.0].nodes, h.0.nodes, h.1) && h.1 < |h.0.nodes|
      requires view[h.0].nodes[h.1].isUsing && !h.0.nodes[h.1].isUsing && h.0.used == []
      requires h.0.Valid() && !h.0.deleted && |view[h.0].nodes| == |h.0.nodes|
      modifies this`top, this`last, this`freeHead, this`chain, this`freeChain, this`repr, this`live
      modifies Opt(h.0.next)`prev, Opt(h.0.prev)`next, Opt(h.0.freeNext)`freePrev, Opt(h.0.freePrev)`freeNext
      ensures Valid() && h in old(live) && live == old(live) - {h}
      ensures Took(old(chain), chain, h.0) && h.0 !in chain && repr == old(repr) - {h.0}
    {
      hide LinksValid, FreeLinksValid, BlocksValid, View, PoolInv;
      hide NodeList.Valid, Summary.Valid, OthersKept, MemberInv, RemoveAt, Distinct, Without, OnAt;
      OnlyUser(view, h);
      ghost var k :| 0 <= k < |chain| && chain[k] == h.0;
      ghost var m := FreePosition(h.0);
      ShrinkInv(view, weak, chain, freeChain, live, peak, k, m, h.1);
      assert view[h.0 := SummaryOf(h.0)] - {h.0} == view - {h.0};
      RestOfChain(k);
      UnlinkBlock(h.0, k, m);
      repr := repr - {h.0};
      live := live - {h};
    }

    /** `DisposeGlobalHandleInner`; the caller decides what becomes of a block that was removed. */
    method Dispose(h: Handle) returns (removed: NodeList?)
      requires Valid() && h in live
      modifies this`top, this`last, this`freeHead, this`chain, this`freeChain, this`repr, this`live
      modifies h.0`nodes, h.0`usedList, h.0`freeList, h.0`used, h.0`free
      modifies repr`next, repr`prev, repr`freeNext, repr`freePrev
      ensures Valid() && live == old(live) - {h}
      ensures OthersKept(old(h.0.nodes), h.0.nodes, h.1) && h.0.Valid() && !h.0.deleted
      ensures removed == null ==> chain == old(chain)
      ensures Took(old(h.0.used), h.0.used, h.1) && peak == old(peak)
      ensures repr == if removed == null then old(repr) else old(repr) - {h.0}
      ensures removed != null ==>
                removed == h.0 && h.0.used == [] && Took(old(chain), chain, h.0) && h.0 !in chain
    {
      hide LinksValid, FreeLinksValid, PoolInv, View, NodeList.Valid, Summary.Valid, OthersKept, RemoveAt;
      LiveFacts(h);
      Surroundings(h.0);
      ghost var view := View();
      ViewAt(h.0);
      var list := h.0;
      FreeSlot(h);
      OneBlock();
      Emptied(list);
      if !list.HasUsagedNode() && top != last {
        DisposeBlock(h, view);
        removed := list;
      } else {
        DisposeKeep(h, view);
        removed := null;
      }
    }

    lemma LiveFacts(h: Handle)
      requires Valid() && h in live
      ensures h.0 in chain && h.1 < |h.0.nodes| && h.0.nodes[h.1].isUsing && h.0.Valid() && !h.0.deleted
    {
      hide LinksValid, FreeLinksValid, NodeList.Valid, FullInv, MemberInv;
      assert SummaryOf(h.0) == View()[h.0];
    }

    /** A pool with no live handle has shrunk to one block. */
    lemma EmptyPool()
      requires Valid() && live == map[]
      ensures |chain| == 1 && repr == {chain[0]}
    {
      hide FreeLinksValid, BlocksValid, MemberInv, WeakInv, PeakInv, Chained;
      var view, b := View(), chain[0];
      ViewAt(b);
      if |chain| > 1 {
        UsedIsSomeHandle(view, live, b);
      }
    }

    lemma Listed(block: NodeList)
      requires Valid() && block in chain
      ensures !block.deleted && block.usedList == First(block.used)
    {
    }

    lemma ReprIsChain()
      requires Valid()
      ensures forall b :: b in chain ==> b in repr
      ensures forall b :: b in repr ==> b in chain
    {
    }

    /** A slot of the pool is a live handle exactly when its node says it is in use. */
    lemma UsingIsLive(h: Handle)
      requires Valid() && h.0 in repr && h.1 < |h.0.nodes|
      ensures h.0.nodes[h.1].isUsing <==> h in live
      ensures h.0.nodes[h.1].isWeak == weak && h.0.Valid() && !h.0.deleted
      ensures h in live ==> live[h] == h.0.nodes[h.1].obj
    {
      hide LinksValid, FreeLinksValid, NodeList.Valid, FullInv, MemberInv, PeakInv;
      ViewAt(h.0);
      assert h == (h.0, h.1);
    }

    lemma FirstBlock()
      requires Valid()
      ensures chain != [] && top == chain[0]
    {
    }

    /** The number of blocks is bounded by the largest number of handles that were live at once. */
    lemma BlockBound()
      requires Valid()
      ensures 1 <= |chain| <= BlocksFor(peak)
    {
      hide FreeLinksValid, BlocksValid, View, FullInv, MemberInv, LiveInv, WeakInv, Chained, Distinct, Capacity, BlocksFor;
      if |chain| > 1 {
        BlocksNeeded(peak, |chain| - 1);
      } else {
        AtLeastOne(peak);
      }
    }

    /** A block is on the free chain exactly when it has a free node, and every block but the last is full. */
    lemma ChainShape(block: NodeList)
      requires Valid() && block in chain
      ensures block in freeChain <==> block.HasFreeNode()
      ensures block != last ==> block.IsFull()
      ensures top == chain[0] && last == chain[|chain| - 1]
    {
      hide LiveInv, WeakInv, PeakInv, Chained, FreeChained, BlockInv, Distinct, Inside, OffLinks;
      ViewAt(block);
    }

    /** The used lists hold the live handles and nothing else, each once. */
    lemma UsedMatchesLive()
      requires Valid()
      ensures Distinct(chain)
      ensures forall k :: 0 <= k < |chain| ==> Distinct(chain[k].used)
      ensures forall h :: h in live ==> h.0 in chain && h.1 in h.0.used
      ensures forall k, i :: 0 <= k < |chain| && i in chain[k].used ==> (chain[k], i) in live
    {
      hide FreeLinksValid, Chained, FullInv, MemberInv, WeakInv, PeakInv, NodeList.Valid, Distinct;
      forall k | 0 <= k < |chain|
        ensures Distinct(chain[k].used)
        ensures forall i :: i in chain[k].used ==> (chain[k], i) in live
      {
        chain[k].UsedOnce();
        chain[k].Shape();
        ViewAt(chain[k]);
      }
      forall h | h in live
        ensures h.0 in chain && h.1 in h.0.used
      {
        LiveFacts(h);
        h.0.Shape();
      }
    }

    lemma NextBlock(k: nat)
      requires Valid() && k < |chain|
      ensures chain[k].next == if k + 1 == |chain| then null else chain[k + 1]
      ensures !chain[k].deleted && top == chain[0] && Distinct(chain)
    {
      hide FreeLinksValid, PoolInv, NodeList.Valid;
      Neighbours(chain, k);
    }

    lemma UsedIsLive(block: NodeList, k: nat)
      requires Valid() && block in chain && k < |block.used|
      ensures block.Valid() && !block.deleted && block.used[k] < |block.nodes| && (block, block.used[k]) in live
    {
      hide LinksValid, FreeLinksValid, FullInv, MemberInv, WeakInv, PeakInv, NodeList.Valid;
      ViewAt(block);
      block.UsedAt(k);
    }

    /** Both kinds of neighbour of a block, and the head of the free chain, are in the chain. */
    lemma Surroundings(block: NodeList)
      requires Valid() && block in chain
      ensures Opt(block.next) + Opt(block.prev) + Opt(block.freeNext) + Opt(block.freePrev) + Opt(freeHead)
              <= repr
    {
      hide NodeList.Valid, FullInv, LiveInv, BlocksValid, WeakInv, PeakInv, Chained, FreeChained, Distinct;
      var k :| 0 <= k < |chain| && chain[k] == block;
      Neighbours(chain, k);
      if block in freeChain {
        var m :| 0 <= m < |freeChain| && freeChain[m] == block;
        FreeNeighbours(freeChain, m);
      }
      FreeChainInside(View());
    }

    lemma FreeChainInside(view: View)
      requires view == View() && MemberInv(view, freeChain)
      ensures forall i :: 0 <= i < |freeChain| ==> freeChain[i] in chain
    {
      forall i | 0 <= i < |freeChain|
        ensures freeChain[i] in chain
      {
        assert freeChain[i] in freeChain;
      }
    }

    lemma Emptied(block: NodeList)
      requires block.Valid()
      ensures block.HasUsagedNode() <==> !block.IsFull() || block.used != []
    {
    }

    /** `NewGlobalHandleImplement`. */
    method New(value: Value) returns (h: Handle)
      requires Valid()
      modifies this`last, this`freeHead, this`chain, this`freeChain, this`repr, this`live, this`peak
      modifies repr`nodes, repr`usedList, repr`freeList, repr`index, repr`used, repr`free
      modifies repr`next, repr`freeNext, repr`freePrev, allocator
      ensures Valid() && h !in old(live) && live == old(live)[h := value]
      ensures peak == Max(old(peak), |live|)
      ensures allocator.issued == old(allocator.issued) + (repr - old(repr))
      ensures allocator.outstanding == old(allocator.outstanding) + (repr - old(repr))
      ensures !old(last.IsFull()) ==> h.0 == old(last)
      ensures old(last.IsFull()) && old(freeHead) != null ==> h.0 == old(freeHead)
      ensures old(last.IsFull()) && old(freeHead) == null ==> h.0 !in old(chain)
      ensures forall b :: b in old(chain) && b != h.0 ==> b.nodes == old(b.nodes)
      ensures fresh(repr - old(repr)) && old(repr) <= repr
      ensures h.0 in old(chain) ==> chain == old(chain) && OthersKept(old(h.0.nodes), h.0.nodes, h.1)
      ensures h.0 !in old(chain) ==>
                && fresh(h.0) && chain == old(chain) + [h.0]
                && |old(live)| == Capacity(|old(chain)|)
                && forall i: nat :: i < |h.0.nodes| ==> !h.0.nodes[i].isInYoungList
    {
      hide LinksValid, FreeLinksValid, BlocksValid, View, PoolInv, NodeList.Valid, OthersKept, Capacity;
      Ends();
      Surroundings(last);
      if !last.IsFull() {
        h := NewInLast(value);
      } else if freeHead != null {
        Surroundings(freeHead);
        h := NewFromFree(value);
      } else {
        h := NewInBlock(value);
      }
    }

    /** A change of a handle's young flag leaves the pool valid. */
    lemma FlagChanged(view: View, h: Handle, flag: bool)
      requires ReprValid() && LinksValid() && FreeLinksValid() && BlocksValid()
      requires PoolInv(view, weak, chain, freeChain, live, peak)
      requires h.0 in view && h.1 < |view[h.0].nodes| && View() == view[h.0 := SummaryOf(h.0)]
      requires SummaryOf(h.0) ==
               view[h.0].(nodes := view[h.0].nodes[h.1 := view[h.0].nodes[h.1].(isInYoungList := flag)])
      ensures Valid()
    {
      hide ReprValid, LinksValid, FreeLinksValid, BlocksValid, View, PoolInv;
      FlagInv(view, weak, chain, freeChain, live, peak, h.0, h.1, flag);
    }
  }
}
