/** A block of global handles (`NodeList` of ecma_global_storage.h).

    A block owns GLOBAL_BLOCK_SIZE nodes by value.  Slots below `index` have been handed out at least
    once; each of them is threaded, through the nodes' own link fields, either on the doubly linked
    used list or on the free list.  The free list is singly linked: the `prev` field of a free node
    is written but never means anything. */
module HandleBlock {
  import opened Basics

  type BlockSize = n: nat | n > 0 witness 256

  /** 256 in the source; nothing here uses more than that a block has a node. */
  const GLOBAL_BLOCK_SIZE: BlockSize

  /** What a handle refers to: the undefined value, another primitive, or a heap object. */
  datatype Value = Undefined | Primitive(bits: int) | HeapObject(address: int)

  datatype Node = Node(obj: Value, next: Option<nat>, prev: Option<nat>,
                       isUsing: bool, isWeak: bool, isInYoungList: bool)
  {
    /** `Node::Reset`: relinks the node and gives it a value; weakness and the young flag stay. */
    function Reset(next': Option<nat>, value: Value, using: bool): Node {
      this.(prev := None, next := next', obj := value, isUsing := using)
    }
  }

  ghost predicate Apart<T>(s: seq<T>, t: seq<T>) {
    forall i, j :: 0 <= i < |s| && 0 <= j < |t| ==> s[i] != t[j]
  }

  function First<T>(s: seq<T>): Option<T> {
    if s == [] then None else Some(s[0])
  }

  /** `s` without the element at position `k`. */
  function RemoveAt<T>(s: seq<T>, k: nat): seq<T>
    requires k < |s|
  {
    s[..k] + s[k + 1..]
  }

  ghost predicate Within(slots: seq<nat>, n: nat) {
    forall i :: 0 <= i < |slots| ==> slots[i] < n
  }

  /** The nodes thread `slots`, in this order, through their `next` fields. */
  ghost predicate Threaded(nodes: seq<Node>, slots: seq<nat>)
    requires Within(slots, |nodes|)
  {
    && (forall i, j :: 0 <= i < j < |slots| && j == i + 1 ==> nodes[slots[i]].next == Some(slots[j]))
    && (slots != [] ==> nodes[slots[|slots| - 1]].next == None)
  }

  /** The nodes thread `slots` backwards through their `prev` fields. */
  ghost predicate BackThreaded(nodes: seq<Node>, slots: seq<nat>)
    requires Within(slots, |nodes|)
  {
    && (forall i, j :: 0 <= i < j < |slots| && j == i + 1 ==> nodes[slots[j]].prev == Some(slots[i]))
    && (slots != [] ==> nodes[slots[0]].prev == None)
  }

  /** Used and free list are disjoint, acyclic, and together exactly the slots [0, index). */
  ghost predicate Partition(index: nat, used: seq<nat>, free: seq<nat>) {
    && Distinct(used) && Distinct(free)
    && Apart(used, free)
    && (forall i: nat :: i in used || i in free <==> i < index)
  }

  /** A node says it is in use exactly when it is on the used list; a free node holds nothing. */
  ghost predicate Marked(nodes: seq<Node>, used: seq<nat>, free: seq<nat>) {
    && (forall i: nat :: i < |nodes| ==> (nodes[i].isUsing <==> i in used))
    && (forall i :: i in free ==> i < |nodes| && nodes[i].obj == Undefined)
  }

  ghost predicate BlockInv(nodes: seq<Node>, index: nat, used: seq<nat>, free: seq<nat>) {
    && |nodes| == GLOBAL_BLOCK_SIZE
    && index <= GLOBAL_BLOCK_SIZE
    && Partition(index, used, free)
    && Within(used, |nodes|) && Within(free, |nodes|)
    && Threaded(nodes, used) && BackThreaded(nodes, used)
    && Threaded(nodes, free)
    && Marked(nodes, used, free)
  }

  /** The nodes after `slot` is given `value` and pushed on a used list whose head was `head`. */
  function Pushed(nodes: seq<Node>, head: Option<nat>, slot: nat, value: Value): (r: seq<Node>)
    requires slot < |nodes|
    requires head.Some? ==> head.value < |nodes|
    ensures |r| == |nodes|
  {
    var reset := nodes[slot := nodes[slot].Reset(head, value, true)];
    if head.None? then reset else reset[head.value := reset[head.value].(prev := Some(slot))]
  }

  /** The nodes after `slot` is unlinked from the used list. */
  function Unlinked(nodes: seq<Node>, slot: nat): (r: seq<Node>)
    requires slot < |nodes|
    requires nodes[slot].prev.Some? ==> nodes[slot].prev.value < |nodes|
    requires nodes[slot].next.Some? ==> nodes[slot].next.value < |nodes|
    ensures |r| == |nodes|
  {
    var node := nodes[slot];
    var mid := if node.prev.None? then nodes
               else nodes[node.prev.value := nodes[node.prev.value].(next := node.next)];
    if node.next.None? then mid
    else mid[node.next.value := mid[node.next.value].(prev := node.prev)]
  }

  /** The nodes after `slot` is cleared and pushed on a free list whose head was `head`. */
  function Released(nodes: seq<Node>, head: Option<nat>, slot: nat): (r: seq<Node>)
    requires slot < |nodes|
    requires head.Some? ==> head.value < |nodes|
    ensures |r| == |nodes|
  {
    var reset := nodes[slot := nodes[slot].Reset(head, Undefined, false)];
    if head.None? then reset else reset[head.value := reset[head.value].(prev := Some(slot))]
  }

  /** A list stays threaded when its own nodes keep their links. */
  lemma ThreadedFrame(nodes: seq<Node>, nodes': seq<Node>, slots: seq<nat>)
    requires Within(slots, |nodes|) && |nodes| == |nodes'| && Threaded(nodes, slots)
    requires forall i :: 0 <= i < |slots| ==> nodes'[slots[i]].next == nodes[slots[i]].next
    ensures Threaded(nodes', slots)
  {
  }

  lemma BackThreadedFrame(nodes: seq<Node>, nodes': seq<Node>, slots: seq<nat>)
    requires Within(slots, |nodes|) && |nodes| == |nodes'| && BackThreaded(nodes, slots)
    requires forall i :: 0 <= i < |slots| ==> nodes'[slots[i]].prev == nodes[slots[i]].prev
    ensures BackThreaded(nodes', slots)
  {
  }

  lemma PushedThreads(nodes: seq<Node>, used: seq<nat>, slot: nat, value: Value)
    requires slot < |nodes| && Within(used, |nodes|) && Distinct([slot] + used)
    requires Threaded(nodes, used) && BackThreaded(nodes, used)
    ensures var r := Pushed(nodes, First(used), slot, value);
            Threaded(r, [slot] + used) && BackThreaded(r, [slot] + used)
  {
    var r := Pushed(nodes, First(used), slot, value);
    var s := [slot] + used;
    assert forall i :: 0 < i < |s| ==> s[i] == used[i - 1] && s[i] != s[0];
    assert used != [] ==> s[1] == used[0];
  }

  lemma UsedNeighbours(nodes: seq<Node>, used: seq<nat>, k: nat)
    requires k < |used| && Within(used, |nodes|)
    requires Threaded(nodes, used) && BackThreaded(nodes, used)
    ensures nodes[used[k]].prev == if k == 0 then None else Some(used[k - 1])
    ensures nodes[used[k]].next == if k + 1 == |used| then None else Some(used[k + 1])
  {
    assert k > 0 ==> nodes[used[k]].prev == Some(used[k - 1]);
    assert k + 1 < |used| ==> nodes[used[k]].next == Some(used[k + 1]);
  }

  /** Unlinking changes one `next` field and one `prev` field. */
  lemma UnlinkedLinks(nodes: seq<Node>, used: seq<nat>, k: nat)
    requires k < |used| && Within(used, |nodes|) && Distinct(used)
    requires Threaded(nodes, used) && BackThreaded(nodes, used)
    ensures nodes[used[k]].prev.Some? ==> nodes[used[k]].prev.value < |nodes|
    ensures nodes[used[k]].next.Some? ==> nodes[used[k]].next.value < |nodes|
    ensures var r := Unlinked(nodes, used[k]);
            && |r| == |nodes|
            && (forall i :: 0 <= i < |used| ==>
                  r[used[i]].next == nodes[used[if i + 1 == k then k else i]].next)
            && (forall i :: 0 <= i < |used| ==>
                  r[used[i]].prev == nodes[used[if i == k + 1 then k else i]].prev)
  {
    UsedNeighbours(nodes, used, k);
  }

  lemma UnlinkedThreads(nodes: seq<Node>, used: seq<nat>, k: nat)
    requires k < |used| && Within(used, |nodes|) && Distinct(used)
    requires Threaded(nodes, used) && BackThreaded(nodes, used)
    ensures nodes[used[k]].prev.Some? ==> nodes[used[k]].prev.value < |nodes|
    ensures nodes[used[k]].next.Some? ==> nodes[used[k]].next.value < |nodes|
    ensures var r := Unlinked(nodes, used[k]);
            Threaded(r, RemoveAt(used, k)) && BackThreaded(r, RemoveAt(used, k))
  {
    hide Unlinked;
    UsedNeighbours(nodes, used, k);
    UnlinkedLinks(nodes, used, k);
    var r := Unlinked(nodes, used[k]);
    var s := RemoveAt(used, k);
    assert forall i :: 0 <= i < |s| ==> s[i] == used[if i < k then i else i + 1];
  }

  lemma ReleasedThreads(nodes: seq<Node>, free: seq<nat>, slot: nat)
    requires slot < |nodes| && Within(free, |nodes|) && Distinct([slot] + free)
    requires Threaded(nodes, free)
    ensures Threaded(Released(nodes, First(free), slot), [slot] + free)
  {
    var s := [slot] + free;
    assert forall i :: 0 < i < |s| ==> s[i] == free[i - 1] && s[i] != s[0];
  }

  /** Every slot keeps its weakness and its young flag; every slot but one keeps its value and use. */
  ghost predicate OthersKept(before: seq<Node>, after: seq<Node>, slot: nat) {
    && |after| == |before|
    && forall i: nat :: i < |before| ==>
         && after[i].isWeak == before[i].isWeak
         && after[i].isInYoungList == before[i].isInYoungList
         && (i != slot ==> after[i].obj == before[i].obj && after[i].isUsing == before[i].isUsing)
  }

  lemma GrowPartition(index: nat, used: seq<nat>, free: seq<nat>)
    requires Partition(index, used, free)
    ensures Partition(index + 1, [index] + used, free)
  {
    var s := [index] + used;
    assert forall i :: i in s <==> i == index || i in used;
    assert forall i :: 0 < i < |s| ==> s[i] == used[i - 1] && s[i] in used;
  }

  lemma ReusePartition(index: nat, used: seq<nat>, free: seq<nat>)
    requires Partition(index, used, free) && free != []
    ensures Partition(index, [free[0]] + used, free[1..])
  {
    var s, t := [free[0]] + used, free[1..];
    assert forall i :: i in s <==> i == free[0] || i in used;
    assert free == [free[0]] + t;
    assert forall i :: i in free <==> i == free[0] || i in t;
    assert free[0] !in t;
    assert forall i :: 0 < i < |s| ==> s[i] == used[i - 1] && s[i] in used;
  }

  lemma RemoveAtIn<T>(s: seq<T>, k: nat)
    requires k < |s| && Distinct(s)
    ensures Distinct(RemoveAt(s, k))
    ensures forall x :: x in RemoveAt(s, k) ==> x in s && x != s[k]
    ensures forall x :: x in s && x != s[k] ==> x in RemoveAt(s, k)
  {
    var r := RemoveAt(s, k);
    forall x | x in s && x != s[k]
      ensures x in r
    {
      var j :| 0 <= j < |s| && s[j] == x;
      assert r[if j < k then j else j - 1] == x;
    }
  }

  lemma RemoveAtEnds<T>(s: seq<T>, k: nat)
    requires k < |s|
    ensures var r := RemoveAt(s, k);
            && |r| == |s| - 1
            && (|s| > 1 ==> r[0] == s[if k == 0 then 1 else 0])
            && (|s| > 1 ==> r[|r| - 1] == s[if k + 1 == |s| then k - 1 else |s| - 1])
  {
  }

  lemma RemoveAtFirst(index: nat, used: seq<nat>, free: seq<nat>, k: nat)
    requires Partition(index, used, free) && k < |used|
    ensures First(RemoveAt(used, k)) ==
            if k == 0 then (if |used| == 1 then None else Some(used[1])) else Some(used[0])
    ensures used[0] == used[k] <==> k == 0
  {
  }

  lemma FreePartition(index: nat, used: seq<nat>, free: seq<nat>, k: nat)
    requires Partition(index, used, free) && k < |used|
    ensures Partition(index, RemoveAt(used, k), [used[k]] + free)
  {
    RemoveAtIn(used, k);
    var s, t := RemoveAt(used, k), [used[k]] + free;
    assert forall i :: i in t <==> i == used[k] || i in free;
    assert used[k] in used;
    assert forall i :: 0 < i < |t| ==> t[i] == free[i - 1] && t[i] in free;
  }

  lemma ReuseThreads(nodes: seq<Node>, free: seq<nat>)
    requires Within(free, |nodes|) && Threaded(nodes, free) && free != []
    ensures Within(free[1..], |nodes|) && Threaded(nodes, free[1..])
    ensures nodes[free[0]].next == First(free[1..])
    ensures forall i :: i in free[1..] ==> i in free
  {
    assert |free| > 1 ==> nodes[free[0]].next == Some(free[1]);
  }

  lemma PushedKept(nodes: seq<Node>, head: Option<nat>, slot: nat, value: Value)
    requires slot < |nodes| && (head.Some? ==> head.value < |nodes|)
    ensures var r := Pushed(nodes, head, slot, value);
            OthersKept(nodes, r, slot) && r[slot].obj == value && r[slot].isUsing
  {
  }

  lemma PushedMarks(nodes: seq<Node>, nodes': seq<Node>, used: seq<nat>, free: seq<nat>, free': seq<nat>, slot: nat)
    requires Marked(nodes, used, free) && OthersKept(nodes, nodes', slot)
    requires slot < |nodes| && nodes'[slot].isUsing && slot !in free'
    requires forall i :: i in free' ==> i in free
    ensures Marked(nodes', [slot] + used, free')
  {
    assert forall i :: i in [slot] + used <==> i == slot || i in used;
  }

  lemma PushedFree(nodes: seq<Node>, head: Option<nat>, free: seq<nat>, slot: nat, value: Value)
    requires slot < |nodes| && Within(free, |nodes|) && Threaded(nodes, free) && slot !in free
    requires head.Some? ==> head.value < |nodes|
    ensures Threaded(Pushed(nodes, head, slot, value), free)
  {
    assert forall i :: 0 <= i < |free| ==> free[i] in free;
    ThreadedFrame(nodes, Pushed(nodes, head, slot, value), free);
  }

  lemma PushInv(nodes: seq<Node>, index: nat, index': nat, used: seq<nat>,
                free: seq<nat>, free': seq<nat>, slot: nat, value: Value)
    requires BlockInv(nodes, index, used, free)
    requires slot < GLOBAL_BLOCK_SIZE && index' <= GLOBAL_BLOCK_SIZE
    requires Partition(index', [slot] + used, free')
    requires Within(free', |nodes|) && Threaded(nodes, free')
    requires forall i :: i in free' ==> i in free
    ensures First(used).Some? ==> First(used).value < |nodes|
    ensures BlockInv(Pushed(nodes, First(used), slot, value), index', [slot] + used, free')
    ensures OthersKept(nodes, Pushed(nodes, First(used), slot, value), slot)
    ensures Pushed(nodes, First(used), slot, value)[slot].obj == value
    ensures Pushed(nodes, First(used), slot, value)[slot].isUsing
    ensures !nodes[slot].isUsing
  {
    FreshSlot(nodes, used, free, free', slot, index');
    hide Threaded, BackThreaded, Marked, Pushed, OthersKept, Apart;
    var r := Pushed(nodes, First(used), slot, value);
    PushedKept(nodes, First(used), slot, value);
    PushedThreads(nodes, used, slot, value);
    PushedFree(nodes, First(used), free', slot, value);
    PushedMarks(nodes, r, used, free, free', slot);
  }

  lemma FreshSlot(nodes: seq<Node>, used: seq<nat>, free: seq<nat>, free': seq<nat>, slot: nat, index': nat)
    requires Partition(index', [slot] + used, free') && Marked(nodes, used, free) && slot < |nodes|
    ensures slot !in free' && !nodes[slot].isUsing
  {
    var s := [slot] + used;
    assert s[0] == slot;
    assert forall i :: 0 <= i < |used| ==> used[i] == s[i + 1];
  }

  lemma ReleasedFrame(nodes: seq<Node>, head: Option<nat>, slot: nat, slots: seq<nat>)
    requires slot < |nodes| && (head.Some? ==> head.value < |nodes|) && Within(slots, |nodes|)
    requires forall i :: 0 <= i < |slots| ==> slots[i] != slot && head != Some(slots[i])
    requires Threaded(nodes, slots) && BackThreaded(nodes, slots)
    ensures Threaded(Released(nodes, head, slot), slots) && BackThreaded(Released(nodes, head, slot), slots)
  {
    ThreadedFrame(nodes, Released(nodes, head, slot), slots);
    BackThreadedFrame(nodes, Released(nodes, head, slot), slots);
  }

  /** The nodes after `FreeNode`. */
  function Freed(nodes: seq<Node>, head: Option<nat>, slot: nat): (r: seq<Node>)
    requires slot < |nodes|
    requires nodes[slot].prev.Some? ==> nodes[slot].prev.value < |nodes|
    requires nodes[slot].next.Some? ==> nodes[slot].next.value < |nodes|
    requires head.Some? ==> head.value < |nodes|
    ensures |r| == |nodes|
  {
    Released(Unlinked(nodes, slot), head, slot)
  }

  lemma FreedKept(nodes: seq<Node>, head: Option<nat>, slot: nat)
    requires slot < |nodes|
    requires nodes[slot].prev.Some? ==> nodes[slot].prev.value < |nodes|
    requires nodes[slot].next.Some? ==> nodes[slot].next.value < |nodes|
    requires head.Some? ==> head.value < |nodes|
    ensures var r := Freed(nodes, head, slot);
            OthersKept(nodes, r, slot) && !r[slot].isUsing && r[slot].obj == Undefined
  {
    var mid := Unlinked(nodes, slot);
    assert OthersKept(nodes, mid, slot);
    assert OthersKept(mid, Released(mid, head, slot), slot);
  }

  lemma FreedUsed(nodes: seq<Node>, used: seq<nat>, free: seq<nat>, k: nat)
    requires k < |used| && Within(used, |nodes|) && Within(free, |nodes|) && Distinct(used)
    requires Apart(used, free)
    requires Threaded(nodes, used) && BackThreaded(nodes, used)
    ensures nodes[used[k]].prev.Some? ==> nodes[used[k]].prev.value < |nodes|
    ensures nodes[used[k]].next.Some? ==> nodes[used[k]].next.value < |nodes|
    ensures var r := Freed(nodes, First(free), used[k]);
            Threaded(r, RemoveAt(used, k)) && BackThreaded(r, RemoveAt(used, k))
  {
    hide Threaded, BackThreaded, Unlinked, Released;
    UnlinkedThreads(nodes, used, k);
    var s := RemoveAt(used, k);
    assert forall i :: 0 <= i < |s| ==> s[i] == if i < k then used[i] else used[i + 1];
    ReleasedFrame(Unlinked(nodes, used[k]), First(free), used[k], s);
  }

  lemma FreedFree(nodes: seq<Node>, used: seq<nat>, free: seq<nat>, k: nat)
    requires k < |used| && Within(used, |nodes|) && Within(free, |nodes|)
    requires Distinct(used) && Distinct([used[k]] + free)
    requires Apart(used, free)
    requires Threaded(nodes, used) && BackThreaded(nodes, used) && Threaded(nodes, free)
    ensures nodes[used[k]].prev.Some? ==> nodes[used[k]].prev.value < |nodes|
    ensures nodes[used[k]].next.Some? ==> nodes[used[k]].next.value < |nodes|
    ensures Threaded(Freed(nodes, First(free), used[k]), [used[k]] + free)
  {
    UsedNeighbours(nodes, used, k);
    ThreadedFrame(nodes, Unlinked(nodes, used[k]), free);
    ReleasedThreads(Unlinked(nodes, used[k]), free, used[k]);
  }

  lemma FreedMarks(nodes: seq<Node>, nodes': seq<Node>, used: seq<nat>, free: seq<nat>, k: nat)
    requires k < |used| && Within(used, |nodes|) && Distinct(used) && |nodes| == |nodes'|
    requires Marked(nodes, used, free) && OthersKept(nodes, nodes', used[k])
    requires !nodes'[used[k]].isUsing && nodes'[used[k]].obj == Undefined
    ensures Marked(nodes', RemoveAt(used, k), [used[k]] + free)
  {
    RemoveAtIn(used, k);
    assert forall i :: i in [used[k]] + free <==> i == used[k] || i in free;
  }

  lemma FreeInv(nodes: seq<Node>, index: nat, used: seq<nat>, free: seq<nat>, k: nat)
    requires BlockInv(nodes, index, used, free) && k < |used|
    ensures nodes[used[k]].prev.Some? ==> nodes[used[k]].prev.value < |nodes|
    ensures nodes[used[k]].next.Some? ==> nodes[used[k]].next.value < |nodes|
    ensures BlockInv(Freed(nodes, First(free), used[k]), index, RemoveAt(used, k), [used[k]] + free)
  {
    hide Threaded, BackThreaded, Freed, Marked;
    FreePartition(index, used, free, k);
    FreedUsed(nodes, used, free, k);
    FreedFree(nodes, used, free, k);
    FreedKept(nodes, First(free), used[k]);
    FreedMarks(nodes, Freed(nodes, First(free), used[k]), used, free, k);
  }

  lemma FlagBlock(nodes: seq<Node>, index: nat, used: seq<nat>, free: seq<nat>, slot: nat, flag: bool)
    requires BlockInv(nodes, index, used, free) && slot < |nodes|
    ensures BlockInv(nodes[slot := nodes[slot].(isInYoungList := flag)], index, used, free)
  {
    hide Partition, Threaded, BackThreaded;
    var r := nodes[slot := nodes[slot].(isInYoungList := flag)];
    ThreadedFrame(nodes, r, used);
    BackThreadedFrame(nodes, r, used);
    ThreadedFrame(nodes, r, free);
  }

  /** The object behind a pointer that may be null, as a set. */
  ghost function Opt(block: NodeList?): set<NodeList> {
    if block == null then {} else {block}
  }

  class NodeList {
    var nodes: seq<Node>
    var freeList: Option<nat>
    var usedList: Option<nat>
    var index: nat
    var next: NodeList?
    var prev: NodeList?
    var freeNext: NodeList?
    var freePrev: NodeList?
    /** Set when the allocator takes the block's memory back. */
    ghost var deleted: bool
    ghost var used: seq<nat>
    ghost var free: seq<nat>

    ghost predicate Valid()
      reads this`nodes, this`freeList, this`usedList, this`index, this`used, this`free
    {
      && BlockInv(nodes, index, used, free)
      && usedList == First(used)
      && freeList == First(free)
    }

    ghost predicate AllWeak(weak: bool)
      reads this`nodes
    {
      forall i: nat :: i < |nodes| ==> nodes[i].isWeak == weak
    }

    constructor (weak: bool)
      ensures Valid() && AllWeak(weak) && !deleted
      ensures used == [] && free == [] && index == 0
      ensures next == null && prev == null && freeNext == null && freePrev == null
      ensures forall i: nat :: i < |nodes| ==> !nodes[i].isInYoungList
    {
      nodes := seq(GLOBAL_BLOCK_SIZE, _ => Node(Undefined, None, None, false, weak, false));
      freeList, usedList, index := None, None, 0;
      next, prev, freeNext, freePrev := null, null, null, null;
      deleted, used, free := false, [], [];
    }

    /** What a pool needs to know about a block's lists. */
    lemma Shape()
      requires Valid()
      ensures |nodes| == GLOBAL_BLOCK_SIZE && index <= GLOBAL_BLOCK_SIZE
      ensures forall i: nat :: i < |nodes| ==> (nodes[i].isUsing <==> i in used)
      ensures IsFull() ==> forall i: nat :: i < |nodes| ==> i in used || i in free
      ensures IsFull() && used == [] ==> free != []
    {
      assert IsFull() && used == [] ==> 0 in free;
    }

    /** What a walk along the used list relies on. */
    lemma UsedAt(k: nat)
      requires Valid() && k < |used|
      ensures used[k] < |nodes| && nodes[used[k]].isUsing
      ensures nodes[used[k]].next == if k + 1 < |used| then Some(used[k + 1]) else None
      ensures Distinct(used) && usedList == First(used)
    {
      hide Threaded, BackThreaded, Distinct, Apart;
      assert used[k] in used;
      UsedNeighbours(nodes, used, k);
    }

    lemma UsedOnce()
      requires Valid()
      ensures Distinct(used) && forall i :: i in used ==> i < |nodes|
    {
    }

    predicate IsFull()
      reads this`index
    {
      index >= GLOBAL_BLOCK_SIZE
    }

    predicate HasFreeNode()
      reads this`freeList
    {
      freeList != None
    }

    predicate HasUsagedNode()
      reads this`index, this`usedList
    {
      !IsFull() || usedList != None
    }

    // What others read of a block goes through these: its memory must not have been given back.

    function GetNext(): NodeList?
      requires !deleted
      reads this`next, this`deleted
    {
      next
    }

    function UsedHead(): Option<nat>
      requires !deleted
      reads this`usedList, this`deleted
    {
      usedList
    }

    function NodeAt(slot: nat): Node
      requires !deleted && slot < |nodes|
      reads this`nodes, this`deleted
    {
      nodes[slot]
    }

    /** The common tail of `NewNode` and `GetFreeNode`. */
    method PushUsed(slot: nat, value: Value)
      requires slot < |nodes| && (usedList.Some? ==> usedList.value < |nodes|)
      modifies this`nodes, this`usedList
      ensures nodes == Pushed(old(nodes), old(usedList), slot, value) && usedList == Some(slot)
    {
      nodes := nodes[slot := nodes[slot].Reset(usedList, value, true)];
      if usedList.Some? {
        nodes := nodes[usedList.value := nodes[usedList.value].(prev := Some(slot))];
      }
      usedList := Some(slot);
    }

    method NewNode(value: Value) returns (r: Option<nat>)
      requires Valid() && !deleted
      modifies this`nodes, this`usedList, this`index, this`used
      ensures Valid()
      ensures old(IsFull()) ==>
                r == None && nodes == old(nodes) && used == old(used) && index == old(index)
      ensures !old(IsFull()) ==>
                && r == Some(old(index)) && index == old(index) + 1 && used == [r.value] + old(used)
                && r.value < |nodes| && !old(nodes)[r.value].isUsing && nodes[r.value].isUsing
                && nodes[r.value].obj == value && OthersKept(old(nodes), nodes, r.value)
    {
      if IsFull() {
        return None;
      }
      hide Partition, Threaded, BackThreaded, Marked, Pushed, OthersKept;
      var slot := index;
      GrowPartition(index, used, free);
      PushInv(nodes, index, index + 1, used, free, free, slot, value);
      index := index + 1;
      PushUsed(slot, value);
      used := [slot] + used;
      return Some(slot);
    }

    method GetFreeNode(value: Value) returns (r: Option<nat>)
      requires Valid() && !deleted
      modifies this`nodes, this`usedList, this`freeList, this`used, this`free
      ensures Valid()
      ensures old(free) == [] ==>
                r == None && nodes == old(nodes) && used == old(used) && free == []
      ensures old(free) != [] ==>
                && r == Some(old(free)[0]) && free == old(free)[1..] && used == [r.value] + old(used)
                && r.value < |nodes| && !old(nodes)[r.value].isUsing && nodes[r.value].isUsing
                && nodes[r.value].obj == value && OthersKept(old(nodes), nodes, r.value)
    {
      r := freeList;
      if r.Some? {
        var slot := r.value;
        ReusePartition(index, used, free);
        ReuseThreads(nodes, free);
        hide Partition, Threaded, BackThreaded, Marked, Pushed, OthersKept;
        PushInv(nodes, index, index, used, free, free[1..], slot, value);
        freeList := nodes[slot].next;
        PushUsed(slot, value);
        used, free := [slot] + used, free[1..];
      }
    }

    /** The pointer updates of `FreeNode`. */
    method Release(slot: nat)
      requires slot < |nodes|
      requires nodes[slot].prev.Some? ==> nodes[slot].prev.value < |nodes|
      requires nodes[slot].next.Some? ==> nodes[slot].next.value < |nodes|
      requires freeList.Some? ==> freeList.value < |nodes|
      modifies this`nodes, this`usedList, this`freeList
      ensures nodes == Freed(old(nodes), old(freeList), slot)
      ensures freeList == Some(slot)
      ensures usedList == if old(usedList) == Some(slot) then old(nodes)[slot].next else old(usedList)
    {
      var node := nodes[slot];
      if node.prev.Some? {
        nodes := nodes[node.prev.value := nodes[node.prev.value].(next := node.next)];
      }
      if node.next.Some? {
        nodes := nodes[node.next.value := nodes[node.next.value].(prev := node.prev)];
      }
      if usedList == Some(slot) {
        usedList := node.next;
      }
      nodes := nodes[slot := nodes[slot].Reset(freeList, Undefined, false)];
      if freeList.Some? {
        nodes := nodes[freeList.value := nodes[freeList.value].(prev := Some(slot))];
      }
      freeList := Some(slot);
    }

    /** Takes the node out of the used list and pushes it on the free list. */
    method FreeNode(slot: nat, ghost k: nat)
      requires Valid() && !deleted
      requires k < |used| && used[k] == slot
      modifies this`nodes, this`usedList, this`freeList, this`used, this`free
      ensures Valid()
      ensures used == RemoveAt(old(used), k) && free == [slot] + old(free)
      ensures slot < |nodes| && !nodes[slot].isUsing && OthersKept(old(nodes), nodes, slot)
    {
      hide Partition, Threaded, BackThreaded, Marked, Freed, OthersKept, RemoveAt;
      UsedNeighbours(nodes, used, k);
      RemoveAtFirst(index, used, free, k);
      FreeInv(nodes, index, used, free, k);
      FreedKept(nodes, freeList, slot);
      Release(slot);
      used, free := RemoveAt(used, k), [slot] + free;
    }

    method SetInYoungList(slot: nat, flag: bool)
      requires Valid() && !deleted && slot < |nodes|
      modifies this`nodes
      ensures Valid() && nodes == old(nodes)[slot := old(nodes)[slot].(isInYoungList := flag)]
    {
      FlagBlock(nodes, index, used, free, slot, flag);
      nodes := nodes[slot := nodes[slot].(isInYoungList := flag)];
    }

    /** Puts this block behind `before` in the block chain. */
    method LinkTo(before: NodeList)
      requires !deleted && !before.deleted && before != this
      modifies this`next, this`prev, before`next
      ensures next == null && prev == before && before.next == this
    {
      next := null;
      prev := before;
      before.next := this;
    }

    /** Takes this block out of the block chain and out of the free chain; its own links stay. */
    method RemoveList()
      requires !deleted
      requires next != this && prev != this && freeNext != this && freePrev != this
      modifies Opt(next)`prev, Opt(prev)`next, Opt(freeNext)`freePrev, Opt(freePrev)`freeNext
      ensures next == old(next) && prev == old(prev)
      ensures freeNext == old(freeNext) && freePrev == old(freePrev)
      ensures next != null ==> next.prev == prev
      ensures prev != null ==> prev.next == next
      ensures freeNext != null ==> freeNext.freePrev == freePrev
      ensures freePrev != null ==> freePrev.freeNext == freeNext
    {
      if next != null {
        next.prev := prev;
      }
      if prev != null {
        prev.next := next;
      }
      if freeNext != null {
        freeNext.freePrev := freePrev;
      }
      if freePrev != null {
        freePrev.freeNext := freeNext;
      }
    }
  }

  /** The allocator of blocks. */
  class NativeAreaAllocator {
    /** Every block it ever gave out, and those it has not taken back. */
    ghost var issued: set<NodeList>
    ghost var outstanding: set<NodeList>

    constructor ()
      ensures issued == outstanding == {}
    {
      issued, outstanding := {}, {};
    }

    method New(weak: bool) returns (block: NodeList)
      modifies this
      ensures fresh(block) && issued == old(issued) + {block} && outstanding == old(outstanding) + {block}
      ensures block.Valid() && block.AllWeak(weak) && !block.deleted
      ensures block.used == [] && block.free == [] && block.index == 0
      ensures block.next == null && block.prev == null && block.freeNext == null && block.freePrev == null
      ensures forall i: nat :: i < |block.nodes| ==> !block.nodes[i].isInYoungList
    {
      block := new NodeList(weak);
      issued, outstanding := issued + {block}, outstanding + {block};
    }

    /** Takes a block's memory back; nothing may touch the block afterwards. */
    method Delete(block: NodeList)
      requires block in outstanding && !block.deleted
      modifies this`outstanding, block`deleted
      ensures block.deleted && outstanding == old(outstanding) - {block}
    {
      block.deleted := true;
      outstanding := outstanding - {block};
    }
  }
}
