/** The shared heap of strings and the operations that build and flatten them (ecma_string.cpp and
    ecma_string-inl.h). */
module StringHeap {
  import opened Basics
  import opened RopeString

  const MAX_ONEBYTE_CHARCODE: nat := 128

  /** A run of units inside a line or cached external string. */
  datatype FlatStringInfo = FlatStringInfo(text: EcmaString, startIndex: nat, length: nat) {
    predicate Ok() {
      text.IsLineOrCachedExternalString() && startIndex + length <= |text.data|
    }

    function Units(): seq<Unit>
      requires Ok()
    {
      text.data[startIndex..startIndex + length]
    }
  }

  /** A flat view of `s`. */
  ghost predicate ViewOf(flat: FlatStringInfo, s: EcmaString, heap: set<EcmaString>)
  {
    && flat.text in heap && flat.Ok() && flat.length == s.length
    && flat.Units() == s.content && flat.text.utf8 == s.utf8
    && (flat.text.kind == CachedExternal ==> flat.text == s)
    && (flat.text.kind == CachedExternal ==> flat.startIndex == 0)
  }

  lemma AddOk(heap: set<EcmaString>, s: EcmaString)
    requires AllOk(heap) && s.Ok(heap + {s})
    ensures AllOk(heap + {s})
  {
  }

  lemma CompressibleAppend(a: seq<Unit>, b: seq<Unit>)
    ensures Compressible(a + b) <==> Compressible(a) && Compressible(b)
  {
    if Compressible(a + b) {
      assert forall i :: 0 <= i < |a| ==> a[i] == (a + b)[i];
      assert forall i :: 0 <= i < |b| ==> b[i] == (a + b)[|a| + i];
    }
  }

  /** Facts about one string of a well-formed heap. */
  lemma StringFacts(heap: set<EcmaString>, s: EcmaString)
    requires AllOk(heap) && s in heap
    ensures |s.content| == s.length < MAX_STRING_LENGTH && (s.utf8 <==> Compressible(s.content))
    ensures s.IsLineOrCachedExternalString() ==> s.data == s.content
    ensures s.kind == Tree ==> s.length >= MIN_TREE_STRING_LENGTH
    ensures s.kind == Sliced ==> s.length >= MIN_SLICED_STRING_LENGTH
  {
  }

  /** A flat tree has the whole text in its first child, a line string. */
  lemma FlatFacts(heap: set<EcmaString>, s: EcmaString)
    requires AllOk(heap) && s in heap && s.kind == Tree
    ensures s.first != null && s.second != null
    ensures s.second.length == 0 ==>
              s.first in heap && s.first.kind == Line && s.first.content == s.content && s.first.utf8 == s.utf8
  {
    assert s.Ok(heap) && s.first.Ok(heap);
    if s.second.length == 0 {
      assert s.first.content + s.second.content == s.first.content;
    }
  }

  lemma SliceFacts(heap: set<EcmaString>, s: EcmaString)
    requires AllOk(heap) && s in heap && s.kind == Sliced
    ensures s.parent != null && s.parent in heap && s.parent.kind == Line && s.parent.utf8 == s.utf8
    ensures s.startIndex + s.length <= s.parent.length == |s.parent.content|
    ensures s.content == s.parent.content[s.startIndex..s.startIndex + s.length]
  {
  }

  lemma HeldWhole(buf: seq<Unit>, content: seq<Unit>)
    requires Holds(buf, 0, content) && |buf| == |content|
    ensures buf == content
  {
  }

  class Heap {
    ghost var strings: set<EcmaString>
    const empty: EcmaString
    const singleChars: seq<EcmaString?>

    ghost predicate Table()
      reads this
    {
      && empty in strings && empty.kind == Line && empty.length == 0
      && |singleChars| == MAX_ONEBYTE_CHARCODE && singleChars[0] == null
      && forall i :: 1 <= i < MAX_ONEBYTE_CHARCODE ==>
           singleChars[i] != null && singleChars[i] in strings && singleChars[i].content == [i]
    }

    ghost predicate Valid()
      reads this, strings
    {
      AllOk(strings) && Table()
    }

    /** The empty string and the table of single characters, whose slot 0 stays unset. */
    constructor ()
      ensures Valid() && fresh(strings)
    {
      var zero := new EcmaString.Flat(Line, [], true);
      var chars: seq<EcmaString?>, i := [null], 1;
      ghost var all := {zero};
      while i < MAX_ONEBYTE_CHARCODE
        invariant 1 <= i <= MAX_ONEBYTE_CHARCODE && |chars| == i && chars[0] == null
        invariant forall k :: 1 <= k < i ==> chars[k] != null && chars[k] in all && chars[k].content == [k]
        invariant zero in all && AllOk(all) && fresh(all)
      {
        var s := new EcmaString.Flat(Line, [i], true);
        chars, all := chars + [s], all + {s};
        i := i + 1;
      }
      empty, singleChars, strings := zero, chars, all;
    }

    /** `CreateLineString` with its contents. */
    method CreateLineString(data: seq<Unit>, compressed: bool) returns (s: EcmaString)
      requires Valid()
      requires |data| < MAX_STRING_LENGTH && (compressed <==> Compressible(data))
      modifies this`strings
      ensures Valid() && strings == old(strings) + {s} && fresh(s)
      ensures s.kind == Line && s.content == data && s.utf8 == compressed && s.length == |data|
    {
      s := new EcmaString.Flat(Line, data, compressed);
      AddOk(strings, s);
      strings := strings + {s};
    }

    /** `CreateFromExternalResource`. */
    method CreateFromExternalResource(data: seq<Unit>, compressed: bool) returns (s: EcmaString)
      requires Valid()
      requires |data| < MAX_STRING_LENGTH && (compressed <==> Compressible(data))
      modifies this`strings
      ensures Valid() && strings == old(strings) + {s} && fresh(s)
      ensures s.kind == CachedExternal && s.content == data && s.utf8 == compressed
    {
      s := new EcmaString.Flat(CachedExternal, data, compressed);
      AddOk(strings, s);
      strings := strings + {s};
    }

    /** `CreateTreeString`: no string when the length is out of range. */
    method CreateTreeString(left: EcmaString, right: EcmaString, length: nat, compressed: bool) returns (s: EcmaString?)
      requires Valid() && left in strings && right in strings
      requires length == left.length + right.length >= MIN_TREE_STRING_LENGTH && left.length > 0 && right.length > 0
      requires compressed <==> left.utf8 && right.utf8
      modifies this`strings
      ensures Valid()
      ensures s == null <==> length >= MAX_STRING_LENGTH
      ensures s == null ==> strings == old(strings)
      ensures s != null ==> strings == old(strings) + {s} && fresh(s) && s.content == left.content + right.content
    {
      if length >= MAX_STRING_LENGTH {
        return null;
      }
      s := new EcmaString.Rope(left, right, length, compressed);
      CompressibleAppend(left.content, right.content);
      AddOk(strings, s);
      strings := strings + {s};
    }

    /** Appends: `null` (after a RangeError) exactly when the result would be too long. */
    method Concat(left: EcmaString, right: EcmaString) returns (s: EcmaString?)
      requires Valid() && left in strings && right in strings
      modifies this`strings
      ensures Valid() && old(strings) <= strings && fresh(strings - old(strings))
      ensures s == null <==> left.length + right.length >= MAX_STRING_LENGTH
      ensures s != null ==> s in strings && s.content == left.content + right.content
    {
      hide AllOk, Table, EcmaString.Ok;
      StringFacts(strings, left);
      StringFacts(strings, right);
      var newLength := (left.length + right.length) % UINT32;
      assert newLength == left.length + right.length;
      if newLength == 0 {
        EmptyFacts();
        return empty;
      }
      if left.length == 0 {
        assert left.content + right.content == right.content;
        return right;
      }
      if right.length == 0 {
        assert left.content + right.content == left.content;
        return left;
      }
      var compressed := left.utf8 && right.utf8;
      if newLength < MIN_TREE_STRING_LENGTH {
        assert left.IsLineOrCachedExternalString() && right.IsLineOrCachedExternalString();
        var data := Join(left.data, right.data, compressed);
        CompressibleAppend(left.content, right.content);
        s := CreateLineString(data, compressed);
        return;
      }
      s := CreateTreeString(left, right, newLength, compressed);
    }

    /** A new flat copy; a tree then points to it and to the empty string.  Nothing in the heap changes its
        meaning, whatever reaches the tree. */
    method SlowFlatten(s: EcmaString) returns (result: EcmaString)
      requires Valid() && s in strings
      requires s.kind == Sliced || (s.kind == Tree && s.second.length != 0)
      modifies this`strings, s`first, s`second
      ensures Valid() && strings == old(strings) + {result} && fresh(result)
      ensures result.kind == Line && result.content == s.content && result.utf8 == s.utf8
      ensures s.kind == Tree ==> s.first == result && s.second == empty
      ensures s.kind == Sliced ==> s.first == old(s.first) && s.second == old(s.second)
      ensures forall t :: t in old(strings) ==> Denote(strings, t) == old(Denote(strings, t))
    {
      hide AllOk, Table, EcmaString.Ok, Denote;
      forall t | t in strings ensures Denote(strings, t) == t.content {
        DenotesContent(strings, t);
      }
      StringFacts(strings, s);
      var buf := new Unit[s.length];
      WriteToFlat(strings, s, buf, 0, s.length, !s.utf8);
      HeldWhole(buf[..], s.content);
      result := CreateLineString(buf[..], s.utf8);
      if s.kind == Tree {
        FlattenTree(s, result);
      }
      forall t | t in strings ensures Denote(strings, t) == t.content {
        DenotesContent(strings, t);
      }
    }

    method FlattenTree(s: EcmaString, result: EcmaString)
      requires Valid() && s in strings && s.kind == Tree
      requires result in strings && result.kind == Line && result.content == s.content
      modifies s`first, s`second
      ensures Valid() && s.first == result && s.second == empty
    {
      s.first := result;
      s.second := empty;
      assert empty.content == [] && result.Ok(strings) && empty.Ok(strings);
      assert s.content == result.content + empty.content;
      assert result.rank < s.rank && empty.rank < s.rank;
    }

    method Flatten(s: EcmaString) returns (flat: EcmaString)
      requires Valid() && s in strings
      modifies this`strings, s`first, s`second
      ensures Valid() && old(strings) <= strings && fresh(strings - old(strings))
      ensures flat in strings && flat.kind != Tree && flat.content == s.content && flat.utf8 == s.utf8
      ensures forall t :: t in old(strings) ==> Denote(strings, t) == old(Denote(strings, t))
    {
      hide AllOk, Table, EcmaString.Ok, Denote;
      if s.kind != Tree {
        return s;
      }
      FlatFacts(strings, s);
      if s.second.length != 0 {
        flat := SlowFlatten(s);
        return;
      }
      return s.first;
    }

    method FlattenAllString(s: EcmaString) returns (flat: FlatStringInfo)
      requires Valid() && s in strings
      modifies this`strings, s`first, s`second
      ensures Valid() && old(strings) <= strings && fresh(strings - old(strings))
      ensures ViewOf(flat, s, strings)
      ensures forall t :: t in old(strings) ==> Denote(strings, t) == old(Denote(strings, t))
    {
      hide AllOk, Table, EcmaString.Ok, Denote;
      StringFacts(strings, s);
      if s.IsLineOrCachedExternalString() {
        return FlatStringInfo(s, 0, s.length);
      }
      var text, start := s, 0;
      if s.kind == Tree {
        FlatFacts(strings, s);
        if s.second.length != 0 {
          text := SlowFlatten(s);
        } else {
          text := s.first;
        }
      } else {
        SliceFacts(strings, s);
        text, start := s.parent, s.startIndex;
      }
      StringFacts(strings, text);
      flat := FlatStringInfo(text, start, s.length);
    }

    /** A slice of the flat form of `src`: its parent is a line string even when `src` is itself a slice. */
    method GetSlicedString(src: EcmaString, start: nat, length: nat) returns (s: EcmaString)
      requires Valid() && src in strings && src.kind != CachedExternal
      requires start + length <= src.length && length >= MIN_SLICED_STRING_LENGTH
      requires src.utf8 <==> Compressible(src.content[start..start + length])
      modifies this`strings, src`first, src`second
      ensures Valid() && old(strings) <= strings && fresh(strings - old(strings))
      ensures s in strings && s.kind == Sliced && s.content == src.content[start..start + length]
      ensures s.parent != null && s.parent.kind == Line && s.startIndex + s.length <= s.parent.length
    {
      hide AllOk, Denote;
      StringFacts(strings, src);
      var flat := FlattenAllString(src);
      StringFacts(strings, flat.text);
      var flatStart := flat.startIndex;
      s := new EcmaString.Slice(flat.text, start + flatStart, length, flat.text.utf8);
      assert s.content == src.content[start..start + length] by {
        assert src.content == flat.text.content[flatStart..flatStart + src.length];
      }
      SliceRanks(strings, flat.text);
      assert s.Ok(strings + {s});
      AddOk(strings, s);
      strings := strings + {s};
    }

    lemma SliceRanks(heap: set<EcmaString>, s: EcmaString)
      requires AllOk(heap) && s in heap && s.IsLineOrCachedExternalString()
      ensures s.rank == 0
    {
    }

    /** `FastSubUtf8String`. */
    method FastSubUtf8String(src: EcmaString, start: nat, length: nat) returns (s: EcmaString)
      requires Valid() && src in strings && start + length <= src.length && src.utf8
      modifies this`strings, src`first, src`second
      ensures Valid() && old(strings) <= strings && fresh(strings - old(strings))
      ensures s in strings && s.kind == Line && s.content == src.content[start..start + length]
    {
      hide AllOk, Table, Denote, EcmaString.Ok;
      StringFacts(strings, src);
      var flat := FlattenAllString(src);
      var data := CopyOf(flat.Units()[start..start + length], false);
      s := CreateLineString(data, true);
    }

    /** `FastSubUtf16String`: compresses when it can. */
    method FastSubUtf16String(src: EcmaString, start: nat, length: nat) returns (s: EcmaString)
      requires Valid() && src in strings && start + length <= src.length
      modifies this`strings, src`first, src`second
      ensures Valid() && old(strings) <= strings && fresh(strings - old(strings))
      ensures s in strings && s.kind == Line && s.content == src.content[start..start + length]
    {
      hide AllOk, Table, Denote, EcmaString.Ok;
      StringFacts(strings, src);
      var flat := FlattenAllString(src);
      var canBeCompressed := CanBeCompressed(flat.Units()[start..start + length]);
      flat := FlattenAllString(src);
      var data := CopyOf(flat.Units()[start..start + length], !canBeCompressed);
      s := CreateLineString(data, canBeCompressed);
    }

    method FastSubString(src: EcmaString, start: nat, length: nat) returns (s: EcmaString)
      requires Valid() && src in strings && start + length <= src.length
      modifies this`strings, src`first, src`second
      ensures Valid() && old(strings) <= strings && fresh(strings - old(strings))
      ensures s in strings && s.content == src.content[start..start + length]
    {
      hide AllOk, Table, Denote, EcmaString.Ok;
      StringFacts(strings, src);
      if length == 0 {
        EmptyFacts();
        return empty;
      }
      if start == 0 && length == src.length {
        return src;
      }
      if src.utf8 {
        s := FastSubUtf8String(src, start, length);
      } else {
        s := FastSubUtf16String(src, start, length);
      }
    }

    /** On each of its paths the substring, in canonical encoding. */
    method GetSubString(src: EcmaString, start: nat, length: nat) returns (s: EcmaString)
      requires Valid() && src in strings && start + length <= src.length
      modifies this`strings, src`first, src`second
      ensures Valid() && old(strings) <= strings && fresh(strings - old(strings))
      ensures s in strings && s.content == src.content[start..start + length]
    {
      hide AllOk, Table, Denote, EcmaString.Ok, Compressible;
      StringFacts(strings, src);
      if length == 1 {
        var u := At(strings, src, start);
        var canBeCompressed := CanBeCompressed([u]);
        if canBeCompressed {
          SingleFacts(u);
          return singleChars[u];
        }
      }
      if length >= MIN_SLICED_STRING_LENGTH && src.kind != CachedExternal {
        if length == src.length {
          return src;
        }
        if !src.utf8 {
          var flat := FlattenAllString(src);
          var canBeCompressed := CanBeCompressed(flat.Units()[start..start + length]);
          if canBeCompressed {
            flat := FlattenAllString(src);
            var data := CopyOf(flat.Units()[start..start + length], false);
            s := CreateLineString(data, true);
            return;
          }
        } else {
          CompressiblePart(src.content, start, length);
        }
        s := GetSlicedString(src, start, length);
        return;
      }
      s := FastSubString(src, start, length);
    }

    /** The table is read only at 1 to 127, never at its unset slot. */
    lemma SingleFacts(u: Unit)
      requires Valid() && Compressible([u])
      ensures 0 < u < |singleChars| && singleChars[u] != null
      ensures singleChars[u] in strings && singleChars[u].content == [u]
    {
      assert IsASCIICharacter([u][0]);
    }

    lemma EmptyFacts()
      requires Valid()
      ensures empty in strings && empty.content == []
    {
    }
  }

  lemma CompressiblePart(s: seq<Unit>, start: nat, length: nat)
    requires Compressible(s) && start + length <= |s|
    ensures Compressible(s[start..start + length])
  {
  }

  method CopyOf(src: seq<Unit>, wide: bool) returns (data: seq<Unit>)
    requires wide || Compressible(src)
    ensures data == src
  {
    var buf := new Unit[|src|];
    CopyChars(buf, 0, src, wide);
    data := buf[..];
  }

  /** The two copies of a short `Concat`. */
  method Join(left: seq<Unit>, right: seq<Unit>, compressed: bool) returns (data: seq<Unit>)
    requires compressed ==> Compressible(left) && Compressible(right)
    ensures data == left + right
  {
    var buf := new Unit[|left| + |right|];
    CopyChars(buf, 0, left, !compressed);
    CopyChars(buf, |left|, right, !compressed);
    data := buf[..];
  }
}
