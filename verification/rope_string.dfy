/** Strings of the runtime (`EcmaString` and the line, tree, sliced and cached external strings under
    ecmascript/string) and the loops that copy their units into a buffer. */
module RopeString {
  import opened Basics

  const MIN_TREE_STRING_LENGTH: nat := 13
  const MIN_SLICED_STRING_LENGTH: nat := 13
  const MAX_STRING_LENGTH: nat := 0x4000_0000

  /** A UTF-16 code unit. */
  type Unit = u: int | 0 <= u < 0x1_0000

  datatype Kind = Line | CachedExternal | Tree | Sliced

  predicate IsASCIICharacter(u: Unit) {
    0 < u <= 0x7F
  }

  ghost predicate Compressible(s: seq<Unit>) {
    forall i :: 0 <= i < |s| ==> 1 <= s[i] <= 0x7F
  }

  /** What storing a unit in a buffer of 16-bit or 8-bit elements keeps of it. */
  function Stored(u: Unit, wide: bool): Unit {
    if wide then u else u % 0x100
  }

  class EcmaString {
    const kind: Kind
    const length: nat
    const utf8: bool
    const data: seq<Unit>            // of a line or cached external string
    const parent: EcmaString?        // of a sliced string
    const startIndex: nat
    var first: EcmaString?           // of a tree string
    var second: EcmaString?
    var interned: bool
    var hashcode: nat                // 0 when not computed yet

    ghost const content: seq<Unit>   // what the string denoted when it was made
    ghost const rank: nat            // above the rank of everything it refers to, now or later

    constructor Flat(kind: Kind, data: seq<Unit>, utf8: bool)
      ensures this.kind == kind && this.data == data && length == |data| && this.utf8 == utf8
      ensures content == data && rank == 0 && fresh(this)
    {
      this.kind, this.data, this.length, this.utf8 := kind, data, |data|, utf8;
      parent, startIndex, first, second, interned, hashcode := null, 0, null, null, false, 0;
      content, rank := data, 0;
    }

    constructor Rope(left: EcmaString, right: EcmaString, length: nat, utf8: bool)
      ensures kind == Tree && this.length == length && this.utf8 == utf8 && first == left && second == right
      ensures content == left.content + right.content
      ensures rank == left.rank + right.rank + 1 && fresh(this)
    {
      kind, data, this.length, this.utf8 := Tree, [], length, utf8;
      parent, startIndex, first, second, interned, hashcode := null, 0, left, right, false, 0;
      content, rank := left.content + right.content, left.rank + right.rank + 1;
    }

    constructor Slice(parent: EcmaString, startIndex: nat, length: nat, utf8: bool)
      requires startIndex + length <= |parent.content|
      ensures kind == Sliced && this.length == length && this.utf8 == utf8
      ensures this.parent == parent && this.startIndex == startIndex
      ensures content == parent.content[startIndex..startIndex + length]
      ensures rank == parent.rank + 1 && fresh(this)
    {
      kind, data, this.length, this.utf8 := Sliced, [], length, utf8;
      this.parent, this.startIndex, first, second, interned, hashcode := parent, startIndex, null, null, false, 0;
      content, rank := parent.content[startIndex..startIndex + length], parent.rank + 1;
    }

    /** UTF-8 exactly when every unit can be compressed. */
    ghost predicate Canonical() {
      |content| == length < MAX_STRING_LENGTH && (utf8 <==> Compressible(content))
    }

    /** Two non-empty children, or flat: a line first child and an empty second one. */
    ghost predicate TreeOk(heap: set<EcmaString>)
      reads this
    {
      && first != null && second != null && first in heap && second in heap
      && first.rank < rank && second.rank < rank
      && content == first.content + second.content
      && |first.content| == first.length && |second.content| == second.length
      && length >= MIN_TREE_STRING_LENGTH
      && (if second.length == 0 then first.kind == Line else first.length > 0)
    }

    ghost predicate SlicedOk(heap: set<EcmaString>) {
      && parent != null && parent in heap && parent.kind == Line && parent.rank < rank
      && parent.utf8 == utf8
      && startIndex + length <= parent.length == |parent.content|
      && content == parent.content[startIndex..startIndex + length]
      && length >= MIN_SLICED_STRING_LENGTH
    }

    ghost predicate Ok(heap: set<EcmaString>)
      reads this
    {
      && Canonical()
      && match kind {
           case Line => data == content && rank == 0
           case CachedExternal => data == content && rank == 0
           case Tree => TreeOk(heap)
           case Sliced => SlicedOk(heap)
         }
    }

    predicate IsLineOrCachedExternalString() {
      kind == Line || kind == CachedExternal
    }
  }

  ghost predicate AllOk(heap: set<EcmaString>)
    reads heap
  {
    forall s :: s in heap ==> s.Ok(heap)
  }

  /** The units a string stands for, read off the heap as it is. */
  ghost function Denote(heap: set<EcmaString>, s: EcmaString): seq<Unit>
    requires AllOk(heap) && s in heap
    reads heap
    decreases s.rank
  {
    match s.kind
    case Line => s.data
    case CachedExternal => s.data
    case Tree => Denote(heap, s.first) + Denote(heap, s.second)
    case Sliced => s.parent.data[s.startIndex..s.startIndex + s.length]
  }

  /** In a well-formed heap, whatever its trees look like now, a string denotes what it was made to denote. */
  lemma {:induction false} DenotesContent(heap: set<EcmaString>, s: EcmaString)
    requires AllOk(heap) && s in heap
    ensures Denote(heap, s) == s.content
    decreases s.rank
  {
    if s.kind == Tree {
      DenotesContent(heap, s.first);
      DenotesContent(heap, s.second);
    }
  }

  // ---------------------------------------------------------------------------------------------
  // Copying

  /** Outside the `count` units at `off`, nothing has changed. */
  ghost predicate Outside(was: seq<Unit>, now: seq<Unit>, off: nat, count: nat) {
    && |was| == |now|
    && forall j :: 0 <= j < |now| && !(off <= j < off + count) ==> now[j] == was[j]
  }

  /** The buffer holds `content` at `off`, except where `[lo, hi)` is still to be written. */
  ghost predicate Filled(buf: seq<Unit>, off: nat, content: seq<Unit>, lo: nat, hi: nat) {
    && off + |content| <= |buf|
    && forall j :: off <= j < off + |content| && !(lo <= j < hi) ==> buf[j] == content[j - off]
  }

  ghost predicate Holds(buf: seq<Unit>, off: nat, content: seq<Unit>) {
    Filled(buf, off, content, off, off)
  }

  /** `BaseString::CopyChars`. */
  method CopyChars(buf: array<Unit>, off: nat, src: seq<Unit>, wide: bool)
    requires off + |src| <= buf.Length
    modifies buf
    ensures forall j :: off <= j < off + |src| ==> buf[j] == Stored(src[j - off], wide)
    ensures Outside(old(buf[..]), buf[..], off, |src|)
  {
    for k := 0 to |src|
      invariant forall j :: off <= j < off + k ==> buf[j] == Stored(src[j - off], wide)
      invariant Outside(old(buf[..]), buf[..], off, k)
    {
      buf[off + k] := Stored(src[k], wide);
    }
  }

  /** `CopyChars` from the first half of a region to its second half. */
  method CopyHalf(buf: array<Unit>, off: nat, count: nat, ghost half: seq<Unit>)
    requires off + 2 * count <= buf.Length
    requires |half| == count && Holds(buf[..], off, half)
    modifies buf
    ensures Holds(buf[..], off + count, half)
    ensures Outside(old(buf[..]), buf[..], off + count, count)
  {
    for k := 0 to count
      invariant forall j :: off + count <= j < off + count + k ==> buf[j] == half[j - off - count]
      invariant Outside(old(buf[..]), buf[..], off + count, k)
    {
      assert buf[..][off + k] == old(buf[..])[off + k] == half[k];
      buf[off + count + k] := buf[off + k];
    }
  }

  /** `BaseString::CanBeCompressed`, which tests four units at a time. */
  method CanBeCompressed(data: seq<Unit>) returns (r: bool)
    ensures r <==> Compressible(data)
  {
    var index := 0;
    while index + 4 <= |data|
      invariant 0 <= index <= |data|
      invariant forall i :: 0 <= i < index ==> IsASCIICharacter(data[i])
    {
      if !IsASCIICharacter(data[index]) || !IsASCIICharacter(data[index + 1])
         || !IsASCIICharacter(data[index + 2]) || !IsASCIICharacter(data[index + 3])
      {
        return false;
      }
      index := index + 4;
    }
    while index < |data|
      invariant 0 <= index <= |data|
      invariant forall i :: 0 <= i < index ==> IsASCIICharacter(data[i])
    {
      if !IsASCIICharacter(data[index]) {
        return false;
      }
      index := index + 1;
    }
    return true;
  }

  /** `BaseString::At` and `TreeString::Get`: walk down to the string that holds the unit. */
  method At(ghost heap: set<EcmaString>, s: EcmaString, index: nat) returns (u: Unit)
    requires AllOk(heap) && s in heap && index < s.length
    ensures u == s.content[index]
  {
    var node, k := s, index;
    if s.kind == Tree && s.second.length == 0 {
      node := s.first;
    }
    while node.kind == Tree
      invariant node in heap && 0 <= k < node.length == |node.content|
      invariant node.content[k] == s.content[index]
      decreases node.rank
    {
      if node.first.length > k {
        node := node.first;
      } else {
        k, node := k - node.first.length, node.second;
      }
    }
    if node.kind == Sliced {
      u := node.parent.data[node.startIndex + k];
    } else {
      u := node.data[k];
    }
  }

  /** The case of a string that is not a tree. */
  method WriteFlat(ghost heap: set<EcmaString>, src: EcmaString, buf: array<Unit>, off: nat, wide: bool)
    requires AllOk(heap) && src in heap && src.kind != Tree
    requires off + src.length <= buf.Length && (wide || src.utf8)
    modifies buf
    ensures Holds(buf[..], off, src.content)
    ensures Outside(old(buf[..]), buf[..], off, src.length)
  {
    if src.kind == Sliced {
      CopyChars(buf, off, src.parent.data[src.startIndex..src.startIndex + src.length], wide);
    } else {
      CopyChars(buf, off, src.data, wide);
    }
  }

  // Buffers, on values

  lemma OutsideWithin(base: seq<Unit>, was: seq<Unit>, now: seq<Unit>, off: nat, count: nat, o: nat, n: nat)
    requires Outside(base, was, off, count) && Outside(was, now, o, n)
    requires off <= o && o + n <= off + count
    ensures Outside(base, now, off, count)
  {
  }

  lemma WroteLeft(was: seq<Unit>, now: seq<Unit>, off: nat, content: seq<Unit>, o: nat, left: seq<Unit>, right: seq<Unit>)
    requires off <= o && o + |left| + |right| <= off + |content|
    requires content[o - off..o - off + |left| + |right|] == left + right
    requires Filled(was, off, content, o, o + |left| + |right|)
    requires Outside(was, now, o, |left|) && Holds(now, o, left)
    ensures content[o - off + |left|..o - off + |left| + |right|] == right
    ensures Filled(now, off, content, o + |left|, o + |left| + |right|)
  {
    assert right == (left + right)[|left|..];
    forall j | o <= j < o + |left| ensures now[j] == content[j - off] {
      assert now[j] == left[j - o] == (left + right)[j - o];
    }
  }

  lemma WroteRight(was: seq<Unit>, now: seq<Unit>, off: nat, content: seq<Unit>, o: nat, left: seq<Unit>, right: seq<Unit>)
    requires off <= o && o + |left| + |right| <= off + |content|
    requires content[o - off..o - off + |left| + |right|] == left + right
    requires Filled(was, off, content, o, o + |left| + |right|)
    requires Outside(was, now, o + |left|, |right|) && Holds(now, o + |left|, right)
    ensures content[o - off..o - off + |left|] == left
    ensures Filled(now, off, content, o, o + |left|)
  {
    assert left == (left + right)[..|left|];
    forall j | o + |left| <= j < o + |left| + |right| ensures now[j] == content[j - off] {
      assert now[j] == right[j - o - |left|] == (left + right)[j - o];
    }
  }

  lemma WroteAll(was: seq<Unit>, now: seq<Unit>, off: nat, content: seq<Unit>, o: nat, n: nat)
    requires off <= o && o + n <= off + |content|
    requires Filled(was, off, content, o, o + n)
    requires Outside(was, now, o, n) && Holds(now, o, content[o - off..o - off + n])
    ensures Holds(now, off, content)
  {
    forall j | o <= j < o + n ensures now[j] == content[j - off] {
      assert now[j] == content[o - off..o - off + n][j - o];
    }
  }

  /** What the flattening loop needs to know about a tree. */
  lemma TreeFacts(heap: set<EcmaString>, s: EcmaString)
    requires AllOk(heap) && s in heap && s.kind == Tree
    ensures s.first != null && s.second != null && s.first in heap && s.second in heap
    ensures s.first.rank < s.rank && s.second.rank < s.rank
    ensures s.content == s.first.content + s.second.content
    ensures |s.first.content| == s.first.length && |s.second.content| == s.second.length
    ensures |s.content| == s.length == s.first.length + s.second.length && s.first.length > 0
    ensures s.utf8 ==> s.first.utf8 && s.second.utf8
  {
    assert s.Ok(heap) && s.first.Ok(heap) && s.second.Ok(heap);
    if s.utf8 {
      assert forall i :: 0 <= i < s.first.length ==> s.first.content[i] == s.content[i];
      assert forall i :: 0 <= i < s.second.length ==> s.second.content[i] == s.content[s.first.length + i];
    }
  }

  lemma LengthIsContent(heap: set<EcmaString>, s: EcmaString)
    requires AllOk(heap) && s in heap
    ensures |s.content| == s.length < MAX_STRING_LENGTH
  {
  }

  /** How far the loop has got: the `n` units at `o` of the region for `content` at `off` are left to write. */
  ghost predicate Progress(base: seq<Unit>, now: seq<Unit>, off: nat, content: seq<Unit>, o: nat, rest: seq<Unit>) {
    && off <= o && o + |rest| <= off + |content|
    && rest == content[o - off..o - off + |rest|]
    && Filled(now, off, content, o, o + |rest|)
    && Outside(base, now, off, |content|)
  }

  lemma Start(buf: seq<Unit>, off: nat, content: seq<Unit>)
    requires off + |content| <= |buf|
    ensures Progress(buf, buf, off, content, off, content)
  {
  }

  lemma StepLeft(base: seq<Unit>, was: seq<Unit>, now: seq<Unit>, off: nat, content: seq<Unit>, o: nat,
                 left: seq<Unit>, right: seq<Unit>)
    requires Progress(base, was, off, content, o, left + right)
    requires Outside(was, now, o, |left|) && Holds(now, o, left)
    ensures Progress(base, now, off, content, o + |left|, right)
  {
    WroteLeft(was, now, off, content, o, left, right);
    OutsideWithin(base, was, now, off, |content|, o, |left|);
  }

  lemma StepRight(base: seq<Unit>, was: seq<Unit>, now: seq<Unit>, off: nat, content: seq<Unit>, o: nat,
                  left: seq<Unit>, right: seq<Unit>)
    requires Progress(base, was, off, content, o, left + right)
    requires Outside(was, now, o + |left|, |right|) && Holds(now, o + |left|, right)
    ensures Progress(base, now, off, content, o, left)
  {
    WroteRight(was, now, off, content, o, left, right);
    OutsideWithin(base, was, now, off, |content|, o + |left|, |right|);
  }

  lemma Finish(base: seq<Unit>, was: seq<Unit>, now: seq<Unit>, off: nat, content: seq<Unit>, o: nat, rest: seq<Unit>)
    requires Progress(base, was, off, content, o, rest)
    requires Outside(was, now, o, |rest|) && Holds(now, o, rest)
    ensures Holds(now, off, content) && Outside(base, now, off, |content|)
  {
    WroteAll(was, now, off, content, o, |rest|);
    OutsideWithin(base, was, now, off, |content|, o, |rest|);
  }

  /** How deep `WriteToFlat` recurses: a level for the shorter child of each tree, none for the longer one, with
      which its loop goes on. */
  ghost function Nesting(heap: set<EcmaString>, s: EcmaString): nat
    requires AllOk(heap) && s in heap
    reads heap
    decreases s.rank, 0
  {
    if s.length == 0 || s.kind != Tree then 0
    else if s.second.length >= s.first.length then
      Deeper(1 + Nesting(heap, s.first), if s.first == s.second then 0 else Nesting(heap, s.second))
    else
      Deeper(RightNesting(heap, s.second), Nesting(heap, s.first))
  }

  /** The same for a right child that is shorter than the left one. */
  ghost function RightNesting(heap: set<EcmaString>, s: EcmaString): nat
    requires AllOk(heap) && s in heap
    reads heap
    decreases s.rank, 1
  {
    if s.length <= 1 || (s.kind == Line && s.utf8) then 0 else 1 + Nesting(heap, s)
  }

  ghost function Deeper(a: nat, b: nat): nat {
    if a > b then a else b
  }

  /** The recursion is no deeper than the logarithm of the length. */
  lemma {:induction false} NestingBound(heap: set<EcmaString>, s: EcmaString)
    requires AllOk(heap) && s in heap && s.length > 0
    ensures Pow2(Nesting(heap, s)) <= s.length
    decreases s.rank
  {
    hide AllOk;
    if s.kind == Tree {
      TreeFacts(heap, s);
      var (short, long) := if s.second.length >= s.first.length then (s.first, s.second) else (s.second, s.first);
      NestingBound(heap, long);
      if short.length > 0 {
        NestingBound(heap, short);
      }
    }
  }

  /** A child that `WriteToFlat` calls itself for is one level less deep, the other one no deeper. */
  lemma NestingStep(heap: set<EcmaString>, s: EcmaString)
    requires AllOk(heap) && s in heap && s.kind == Tree && s.length > 0
    ensures s.first != null && s.second != null && s.first in heap && s.second in heap
    ensures s.second.length >= s.first.length ==> Nesting(heap, s.first) < Nesting(heap, s)
    ensures s.second.length >= s.first.length && s.first != s.second ==> Nesting(heap, s.second) <= Nesting(heap, s)
    ensures s.second.length < s.first.length ==>
              RightNesting(heap, s.second) <= Nesting(heap, s) && Nesting(heap, s.first) <= Nesting(heap, s)
  {
    TreeFacts(heap, s);
  }

  /** `BaseString::WriteToFlat`: loops over the longer child and recurses into the shorter one. */
  method WriteToFlat(ghost heap: set<EcmaString>, src: EcmaString, buf: array<Unit>, off: nat, maxLength: nat, wide: bool)
    requires AllOk(heap) && src in heap
    requires src.length <= maxLength && off + maxLength <= buf.Length && (wide || src.utf8)
    modifies buf
    ensures Holds(buf[..], off, src.content)
    ensures Outside(old(buf[..]), buf[..], off, src.length)
    decreases Nesting(heap, src), 1
  {
    hide *;
    LengthIsContent(heap, src);
    if src.length == 0 {
      HoldsNothing(buf[..], off, src.content);
      return;
    }
    var node, o, len, max := src, off, src.length, maxLength;
    Start(buf[..], off, src.content);
    while node.kind == Tree
      invariant node in heap && node.rank <= src.rank && 0 < len == node.length && (wide || node.utf8)
      invariant 0 <= o && len <= max && o + max <= buf.Length
      invariant Progress(old(buf[..]), buf[..], off, src.content, o, node.content)
      invariant Nesting(heap, node) <= Nesting(heap, src)
      decreases node.rank
    {
      TreeFacts(heap, node);
      NestingStep(heap, node);
      ghost var was := buf[..];
      var left, right := node.first, node.second;
      if right.length >= left.length {
        WriteToFlat(heap, left, buf, o, max, wide);
        StepLeft(old(buf[..]), was, buf[..], off, src.content, o, left.content, right.content);
        if left == right {
          was := buf[..];
          CopyHalf(buf, o, left.length, left.content);
          Finish(old(buf[..]), was, buf[..], off, src.content, o + left.length, right.content);
          return;
        }
        o, max, len := o + left.length, max - left.length, len - left.length;
        node := right;
      } else {
        if len > left.length {
          WriteRight(heap, right, buf, o + left.length, max - left.length, wide);
          StepRight(old(buf[..]), was, buf[..], off, src.content, o, left.content, right.content);
          len := len - right.length;
        } else {
          assert left.content + right.content == left.content;
        }
        max := left.length;
        node := left;
      }
    }
    LengthIsContent(heap, node);
    ghost var was := buf[..];
    WriteFlat(heap, node, buf, o, wide);
    Finish(old(buf[..]), was, buf[..], off, src.content, o, node.content);
  }

  /** The three ways of writing a right child that is shorter than the left one. */
  method WriteRight(ghost heap: set<EcmaString>, right: EcmaString, buf: array<Unit>, off: nat, maxLength: nat, wide: bool)
    requires AllOk(heap) && right in heap
    requires 0 < right.length <= maxLength && off + maxLength <= buf.Length && (wide || right.utf8)
    modifies buf
    ensures Holds(buf[..], off, right.content)
    ensures Outside(old(buf[..]), buf[..], off, right.length)
    decreases RightNesting(heap, right), 0
  {
    hide AllOk, Holds, Outside, EcmaString.Ok, Nesting;
    LengthIsContent(heap, right);
    if right.length == 1 {
      var u := At(heap, right, 0);
      CopyUnit(heap, right, buf, off, u, wide);
    } else if right.kind == Line && right.utf8 {
      WriteFlat(heap, right, buf, off, wide);
    } else {
      WriteToFlat(heap, right, buf, off, maxLength, wide);
    }
  }

  lemma HoldsNothing(buf: seq<Unit>, off: nat, content: seq<Unit>)
    requires content == [] && off <= |buf|
    ensures Holds(buf, off, content) && Outside(buf, buf, off, 0)
  {
  }

  /** The write of a right child of length 1. */
  method CopyUnit(ghost heap: set<EcmaString>, s: EcmaString, buf: array<Unit>, off: nat, u: Unit, wide: bool)
    requires AllOk(heap) && s in heap && s.length == 1 && u == s.content[0] && (wide || s.utf8)
    requires off < buf.Length
    modifies buf
    ensures Holds(buf[..], off, s.content)
    ensures Outside(old(buf[..]), buf[..], off, 1)
  {
    buf[off] := Stored(u, wide);
  }
}
