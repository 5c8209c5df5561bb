/** Comparing and searching strings (ecma_string.cpp and the span loops of base_string-inl.h). */
module StringSearch {
  import opened RopeString
  import opened StringHeap

  // ---------------------------------------------------------------------------------------------
  // Order

  /** The lexicographic order of code units. */
  predicate Less(a: seq<Unit>, b: seq<Unit>) {
    if b == [] then false
    else if a == [] then true
    else a[0] < b[0] || (a[0] == b[0] && Less(a[1..], b[1..]))
  }

  lemma {:induction false} LessTrichotomy(a: seq<Unit>, b: seq<Unit>)
    ensures !(Less(a, b) && Less(b, a))
    ensures a == b <==> !Less(a, b) && !Less(b, a)
  {
    if a != [] && b != [] {
      LessTrichotomy(a[1..], b[1..]);
      assert a == [a[0]] + a[1..] && b == [b[0]] + b[1..];
    }
  }

  lemma {:induction false} LessTransitive(a: seq<Unit>, b: seq<Unit>, c: seq<Unit>)
    requires Less(a, b) && Less(b, c)
    ensures Less(a, c)
  {
    if a != [] && a[0] == b[0] == c[0] {
      LessTransitive(a[1..], b[1..], c[1..]);
    }
  }

  /** Past a common prefix, the order is decided by what follows. */
  lemma {:induction false} LessAfterPrefix(a: seq<Unit>, b: seq<Unit>, k: nat)
    requires k <= |a| && k <= |b| && forall i :: 0 <= i < k ==> a[i] == b[i]
    ensures Less(a, b) == Less(a[k..], b[k..])
    ensures a == b <==> a[k..] == b[k..]
  {
    if k > 0 {
      LessAfterPrefix(a[1..], b[1..], k - 1);
      assert a[1..][k - 1..] == a[k..] && b[1..][k - 1..] == b[k..];
      assert a == [a[0]] + a[1..] && b == [b[0]] + b[1..];
    }
  }

  /** The strings agree before position `k`, and there `a` has the smaller unit or ends while `b` goes on. */
  ghost predicate LessAt(a: seq<Unit>, b: seq<Unit>, k: nat) {
    && k <= |a| && k < |b| && (forall i :: 0 <= i < k ==> a[i] == b[i])
    && (k == |a| || a[k] < b[k])
  }

  /** The first difference decides the order, by the smaller unit; a proper prefix is less. */
  lemma {:induction false} LessExactly(a: seq<Unit>, b: seq<Unit>)
    ensures Less(a, b) <==> exists k: nat :: LessAt(a, b, k)
  {
    if Less(a, b) {
      var k := FirstDifference(a, b);
      assert LessAt(a, b, k);
    }
    if k: nat :| LessAt(a, b, k) {
      LessAfterPrefix(a, b, k);
    }
  }

  lemma {:induction false} FirstDifference(a: seq<Unit>, b: seq<Unit>) returns (k: nat)
    requires Less(a, b)
    ensures LessAt(a, b, k)
  {
    if a == [] || a[0] < b[0] {
      k := 0;
    } else {
      var j := FirstDifference(a[1..], b[1..]);
      k := j + 1;
      forall i | 0 <= i < k ensures a[i] == b[i] {
        assert i > 0 ==> a[i] == a[1..][i - 1] && b[i] == b[1..][i - 1];
      }
    }
  }

  /** `CompareStringSpan` over two spans of the given sizes; only the first `count` units are read. */
  method CompareStringSpan(lhs: seq<Unit>, lhsSize: nat, rhs: seq<Unit>, rhsSize: nat, count: nat) returns (r: int)
    requires count <= lhsSize && count <= rhsSize
    requires count <= |lhs| && count <= |rhs|
    ensures r == 0 ==> forall i :: 0 <= i < count ==> lhs[i] == rhs[i]
    ensures r != 0 ==> (r < 0 <==> Less(lhs, rhs)) && (r > 0 <==> Less(rhs, lhs)) && lhs != rhs
  {
    var i := 0;
    while i < count
      invariant 0 <= i <= count
      invariant forall k :: 0 <= k < i ==> lhs[k] == rhs[k]
    {
      if lhs[i] != rhs[i] {
        LessAfterPrefix(lhs, rhs, i);
        LessAfterPrefix(rhs, lhs, i);
        return lhs[i] as int - rhs[i] as int;
      }
      i := i + 1;
    }
    return 0;
  }

  /** When one string is a prefix of the other, the shorter is the lesser. */
  lemma LessByLength(a: seq<Unit>, b: seq<Unit>)
    requires forall i :: 0 <= i < |a| && i < |b| ==> a[i] == b[i]
    ensures Less(a, b) <==> |a| < |b|
    ensures a == b <==> |a| == |b|
  {
    LessAfterPrefix(a, b, if |a| < |b| then |a| else |b|);
  }

  /** Negative, zero or positive as the contents are less, equal or greater, for every pair of encodings and
      representations. */
  method Compare(heap: Heap, left: EcmaString, right: EcmaString) returns (r: int)
    requires heap.Valid() && left in heap.strings && right in heap.strings
    modifies heap`strings, left`first, left`second, right`first, right`second
    ensures heap.Valid() && old(heap.strings) <= heap.strings && fresh(heap.strings - old(heap.strings))
    ensures r == 0 <==> left.content == right.content
    ensures r < 0 <==> Less(left.content, right.content)
    ensures r > 0 <==> Less(right.content, left.content)
  {
    hide AllOk, Less, Denote, Heap.Valid;
    LessTrichotomy(left.content, right.content);
    if left == right {
      return 0;
    }
    var lhs := heap.FlattenAllString(left);
    var rhs := heap.FlattenAllString(right);
    var a, b := lhs.Units(), rhs.Units();
    var countDiff := |a| - |b|;
    var minCount := if countDiff < 0 then |a| else |b|;
    var charDiff;
    if lhs.text.utf8 && rhs.text.utf8 {
      charDiff := CompareStringSpan(a, |a|, b, |b|, minCount);
    } else if lhs.text.utf8 {
      charDiff := CompareStringSpan(a, |a|, b, |b|, minCount);
    } else if rhs.text.utf8 {
      charDiff := CompareStringSpan(a, |b|, b, |a|, minCount);
    } else {
      charDiff := CompareStringSpan(a, |a|, b, |b|, minCount);
    }
    if charDiff != 0 {
      return charDiff;
    }
    LessByLength(a, b);
    LessByLength(b, a);
    return countDiff;
  }

  // ---------------------------------------------------------------------------------------------
  // Equality

  /** `StringsAreEquals` over two spans; reads the size of the first. */
  method StringsAreEquals(a: seq<Unit>, aSize: nat, b: seq<Unit>, bSize: nat) returns (r: bool)
    requires aSize <= bSize && aSize <= |a| && aSize <= |b|
    ensures r <==> a[..aSize] == b[..aSize]
  {
    var i := 0;
    while i < aSize
      invariant 0 <= i <= aSize
      invariant forall k :: 0 <= k < i ==> a[k] == b[k]
    {
      if a[i] != b[i] {
        assert a[..aSize][i] != b[..aSize][i];
        return false;
      }
      i := i + 1;
    }
    return true;
  }

  /** No two interned strings have the same contents. */
  ghost predicate InternUnique(strings: set<EcmaString>)
    reads strings
  {
    forall s, t :: s in strings && t in strings && s.interned && t.interned && s.content == t.content ==> s == t
  }

  /** Cached hash codes depend only on the contents. */
  ghost predicate HashByContent(strings: set<EcmaString>)
    reads strings
  {
    forall s, t :: s in strings && t in strings && s.hashcode != 0 && t.hashcode != 0 && s.content == t.content ==>
      s.hashcode == t.hashcode
  }

  /** Equal contents, whatever the shortcuts by identity, intern flag, length and hash code. */
  method StringsAreEqual(heap: Heap, left: EcmaString, right: EcmaString) returns (r: bool)
    requires heap.Valid() && left in heap.strings && right in heap.strings
    requires InternUnique(heap.strings) && HashByContent(heap.strings)
    modifies heap`strings, left`first, left`second, right`first, right`second
    ensures heap.Valid() && old(heap.strings) <= heap.strings && fresh(heap.strings - old(heap.strings))
    ensures r <==> left.content == right.content
  {
    hide AllOk, Denote, Heap.Valid;
    if left == right {
      return true;
    }
    if left.interned && right.interned {
      return false;
    }
    ContentLength(heap, left);
    ContentLength(heap, right);
    if left.length != right.length {
      return false;
    }
    if left.length == 0 {
      return true;
    }
    if left.hashcode != 0 && right.hashcode != 0 {
      if left.hashcode != right.hashcode {
        return false;
      }
    }
    var lhs := heap.FlattenAllString(left);
    var rhs := heap.FlattenAllString(right);
    var a, b := lhs.Units(), rhs.Units();
    if !lhs.text.utf8 && rhs.text.utf8 {
      r := StringsAreEquals(a, |b|, b, |a|);
    } else {
      r := StringsAreEquals(a, |a|, b, |b|);
    }
    assert a[..|a|] == a && b[..|b|] == b;
  }

  lemma ContentLength(heap: Heap, s: EcmaString)
    requires heap.Valid() && s in heap.strings
    ensures |s.content| == s.length < MAX_STRING_LENGTH
    ensures s.utf8 <==> Compressible(s.content)
  {
    StringFacts(heap.strings, s);
  }

  // ---------------------------------------------------------------------------------------------
  // Search

  /** The needle occurs in the text at index `i`. */
  predicate Match(text: seq<Unit>, needle: seq<Unit>, i: int) {
    0 <= i && i + |needle| <= |text| && text[i..i + |needle|] == needle
  }

  /** StringIndexOf of ECMA-262: the least match at or after `pos`, or -1. */
  ghost predicate IsIndexOf(text: seq<Unit>, needle: seq<Unit>, pos: int, r: int) {
    if r == -1 then forall i :: pos <= i ==> !Match(text, needle, i)
    else pos <= r && Match(text, needle, r) && forall i :: pos <= i < r ==> !Match(text, needle, i)
  }

  /** The greatest match at or before `pos`, or -1. */
  ghost predicate IsLastIndexOf(text: seq<Unit>, needle: seq<Unit>, pos: int, r: int) {
    if r == -1 then forall i :: 0 <= i <= pos ==> !Match(text, needle, i)
    else r <= pos && Match(text, needle, r) && forall i :: r < i <= pos ==> !Match(text, needle, i)
  }

  lemma MatchUnits(text: seq<Unit>, needle: seq<Unit>, i: nat)
    requires i + |needle| <= |text|
    ensures Match(text, needle, i) <==> forall k :: 0 <= k < |needle| ==> text[i + k] == needle[k]
  {
    if forall k :: 0 <= k < |needle| ==> text[i + k] == needle[k] {
      assert text[i..i + |needle|] == needle;
    } else {
      var k :| 0 <= k < |needle| && text[i + k] != needle[k];
      assert text[i..i + |needle|][k] != needle[k];
    }
  }

  /** `BaseString::IndexOf`: skips to the next first unit, then compares the rest. */
  method SpanIndexOf(text: seq<Unit>, needle: seq<Unit>, pos: nat, max: int) returns (r: int)
    requires |needle| > 0 && max == |text| - |needle|
    ensures IsIndexOf(text, needle, pos, r)
  {
    var first := needle[0];
    var i: int := pos;
    while i <= max
      invariant pos <= i
      invariant forall k :: pos <= k < i ==> !Match(text, needle, k)
      decreases max - i
    {
      if text[i] != first {
        i := SkipTo(text, needle, i, max);
      }
      if i <= max {
        var found := RestMatches(text, needle, i);
        if found {
          return i;
        }
      }
      i := i + 1;
    }
    return -1;
  }

  /** The inner loop that skips units other than the first. */
  method SkipTo(text: seq<Unit>, needle: seq<Unit>, from: nat, max: int) returns (i: int)
    requires |needle| > 0 && from <= max == |text| - |needle| && text[from] != needle[0]
    ensures from < i && (i <= max ==> text[i] == needle[0])
    ensures forall k :: from <= k < i ==> !Match(text, needle, k)
  {
    i := from + 1;
    MatchUnits(text, needle, from);
    while i <= max && text[i] != needle[0]
      invariant from < i <= max + 1
      invariant forall k :: from <= k < i ==> !Match(text, needle, k)
      decreases max - i
    {
      MatchUnits(text, needle, i);
      i := i + 1;
    }
  }

  /** The loop that compares the units after the first. */
  method RestMatches(text: seq<Unit>, needle: seq<Unit>, i: nat) returns (found: bool)
    requires |needle| > 0 && i + |needle| <= |text| && text[i] == needle[0]
    ensures found <==> Match(text, needle, i)
  {
    MatchUnits(text, needle, i);
    var k := 1;
    while k < |needle| && text[i + k] == needle[k]
      invariant 1 <= k <= |needle|
      invariant forall m :: 0 <= m < k ==> text[i + m] == needle[m]
    {
      k := k + 1;
    }
    return k == |needle|;
  }

  /** `BaseString::LastIndexOf`. */
  method SpanLastIndexOf(text: seq<Unit>, needle: seq<Unit>, pos: nat) returns (r: int)
    requires |needle| > 0 && pos + |needle| <= |text|
    ensures IsLastIndexOf(text, needle, pos, r)
  {
    var i: int := pos;
    while i >= 0
      invariant -1 <= i <= pos
      invariant forall k :: i < k <= pos ==> !Match(text, needle, k)
    {
      if text[i] == needle[0] {
        var found := RestMatches(text, needle, i);
        if found {
          return i;
        }
      } else {
        MatchUnits(text, needle, i);
      }
      i := i - 1;
    }
    return -1;
  }

  /** A needle with a unit that cannot be compressed does not occur in a text without one. */
  lemma NoWideNeedle(text: seq<Unit>, needle: seq<Unit>)
    requires Compressible(text) && !Compressible(needle)
    ensures forall i :: !Match(text, needle, i)
  {
    var k :| 0 <= k < |needle| && !IsASCIICharacter(needle[k]);
    forall i ensures !Match(text, needle, i) {
      if 0 <= i && i + |needle| <= |text| {
        MatchUnits(text, needle, i);
        assert IsASCIICharacter(text[i + k]);
      }
    }
  }

  /** The least match at or after `pos`, a negative `pos` counting as 0; an empty needle with a negative `pos`
      is the one case that returns `pos` itself. */
  method IndexOf(heap: Heap, receiver: EcmaString, search: EcmaString, pos: int) returns (r: int)
    requires heap.Valid() && receiver in heap.strings && search in heap.strings
    modifies heap`strings, receiver`first, receiver`second, search`first, search`second
    ensures heap.Valid() && old(heap.strings) <= heap.strings && fresh(heap.strings - old(heap.strings))
    ensures IsIndexOf(receiver.content, search.content, if pos < 0 then 0 else pos, r) <==>
              !(search.length == 0 && pos < 0)
    ensures search.length == 0 && pos < 0 ==> r == pos
  {
    hide AllOk, Denote, Heap.Valid, Match;
    ContentLength(heap, receiver);
    ContentLength(heap, search);
    MatchRange(receiver.content, search.content);
    var lhsCount, rhsCount, from := receiver.length, search.length, pos;
    if from > lhsCount {
      return -1;
    }
    if rhsCount == 0 {
      MatchEmpty(receiver.content, search.content);
      assert Match(receiver.content, search.content, 0);
      return from;
    }
    if from < 0 {
      from := 0;
    }
    var max: int := lhsCount as int - rhsCount as int;
    if max < 0 {
      return -1;
    }
    if from + rhsCount > lhsCount {
      return -1;
    }
    var lhs := heap.FlattenAllString(receiver);
    var rhs := heap.FlattenAllString(search);
    if lhs.text.utf8 && !rhs.text.utf8 {
      NoWideNeedle(receiver.content, search.content);
      return -1;
    }
    r := SpanIndexOf(lhs.Units(), rhs.Units(), from, max);
  }

  lemma MatchRange(text: seq<Unit>, needle: seq<Unit>)
    ensures forall i :: Match(text, needle, i) ==> 0 <= i <= |text| - |needle|
  {
  }

  lemma MatchEmpty(text: seq<Unit>, needle: seq<Unit>)
    requires needle == []
    ensures forall i :: 0 <= i <= |text| ==> Match(text, needle, i)
  {
  }

  /** The greatest match at or before `pos`, a negative `pos` counting as 0. */
  method LastIndexOf(heap: Heap, receiver: EcmaString, search: EcmaString, pos: int) returns (r: int)
    requires heap.Valid() && receiver in heap.strings && search in heap.strings
    modifies heap`strings, receiver`first, receiver`second, search`first, search`second
    ensures heap.Valid() && old(heap.strings) <= heap.strings && fresh(heap.strings - old(heap.strings))
    ensures IsLastIndexOf(receiver.content, search.content, if pos < 0 then 0 else pos, r)
  {
    hide AllOk, Denote, Heap.Valid, Match;
    ContentLength(heap, receiver);
    ContentLength(heap, search);
    MatchRange(receiver.content, search.content);
    var lhsCount, rhsCount, from := receiver.length, search.length, pos;
    if lhsCount < rhsCount {
      return -1;
    }
    if from < 0 {
      from := 0;
    }
    if from > lhsCount {
      from := lhsCount;
    }
    if from + rhsCount > lhsCount {
      from := lhsCount - rhsCount;
    }
    if rhsCount == 0 {
      MatchEmpty(receiver.content, search.content);
      return from;
    }
    var lhs := heap.FlattenAllString(receiver);
    var rhs := heap.FlattenAllString(search);
    if lhs.text.utf8 && !rhs.text.utf8 {
      NoWideNeedle(receiver.content, search.content);
      return -1;
    }
    r := SpanLastIndexOf(lhs.Units(), rhs.Units(), from);
  }
}
