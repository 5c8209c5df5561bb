/** Array elements that switch between raw ints, raw doubles and tagged values (elements.cpp, element_accessor.cpp,
    element_accessor-inl.h, and `TransitToElementsKind` of js_hclass.cpp). */
module JSArrays {
  import opened Basics
  import opened TaggedValue
  import opened ElementsKinds

  /** `GetTaggedValueWithElementsKind`; none where it is fatal or where a pointer would be read as a number. */
  function GetTaggedValueWithElementsKind(w: Word, k: ElementsKind): Option<Value> {
    if w == Bits(SPECIAL_HOLE) then Some(Hole)
    else if k == INT || k == HOLE_INT then
      if w.Bits? then Some(Int(ToInt32(w.bits))) else None
    else if k == NUMBER || k == HOLE_NUMBER then
      if w.Bits? && w.bits < 0xFFFE_0000_0000_0000 then Some(Double(w.bits)) else None
    else if k == HOLE || k == NONE || k == TAGGED || k == STRING || k == HOLE_TAGGED || k == HOLE_STRING then
      Some(Untag(w))
    else None
  }

  /** `ConvertTaggedValueWithElementsKind`; none where it is fatal or where a value is not of the kind. */
  function ConvertTaggedValueWithElementsKind(v: Value, k: ElementsKind): Option<Word> {
    if v.Hole? && IsInNumbers(k) then Some(Bits(SPECIAL_HOLE))
    else if k == INT || k == HOLE_INT then
      if v.Int? then Some(Bits(SignExtended(v.n))) else None
    else if k == NUMBER || k == HOLE_NUMBER then
      if v.Int? then Some(Bits(DoubleOfInt(v.n))) else if v.Double? then Some(Bits(v.d)) else None
    else if k == HOLE || k == NONE || k == TAGGED || k == STRING || k == HOLE_TAGGED || k == HOLE_STRING then
      Some(Tag(v))
    else None
  }

  /** The kind by which a word is read: that of the array only if its elements are a mutant array. */
  function ReadKind(mutant: bool, k: ElementsKind): ElementsKind {
    if mutant then k else GENERIC
  }

  /** The NaN that is tagged to the very word that stands for a hole. */
  const HOLE_NAN: Value := Double(0xFFFD_0000_0000_0001)

  lemma StorableExactly(v: Value)
    ensures Tag(v) == Bits(SPECIAL_HOLE) <==> v == HOLE_NAN
  {
  }

  /** What is left of a value once it is in the elements: tagged, that NaN becomes a hole. */
  function Kept(v: Value, tagged: bool): Value {
    if tagged && v == HOLE_NAN then Hole else v
  }

  /** The word is the encoding of a value that the kind admits; in tagged elements the hole word may stand for the
      NaN that was stored. */
  ghost predicate Holds(w: Word, mutant: bool, k: ElementsKind, v: Value) {
    && GetTaggedValueWithElementsKind(w, ReadKind(mutant, k)) == Some(v)
    && Admits(k, v)
    && (!mutant ==> w == Tag(v) || (w == Tag(HOLE_NAN) && Admits(k, HOLE_NAN)))
  }

  ghost predicate WordOk(w: Word, mutant: bool, k: ElementsKind) {
    exists v :: Holds(w, mutant, k, v)
  }

  /** What a word says. */
  function Read(w: Word, mutant: bool, k: ElementsKind): Value {
    match GetTaggedValueWithElementsKind(w, ReadKind(mutant, k))
    case Some(v) => v
    case None => Hole
  }

  lemma ReadFacts(w: Word, mutant: bool, k: ElementsKind)
    requires WordOk(w, mutant, k)
    ensures Admits(k, Read(w, mutant, k)) && (!mutant ==> Read(w, mutant, k) != HOLE_NAN)
  {
  }

  /** That NaN is the same as nothing else. */
  lemma SameNaN(v: Value)
    requires Same(v, HOLE_NAN) || Same(HOLE_NAN, v)
    ensures v == HOLE_NAN
  {
    assert Number(HOLE_NAN) == None;
  }

  /** Numbers that are the same are kept in the same way. */
  lemma KeptSame(u: Value, v: Value, tagged: bool)
    requires Same(u, v)
    ensures Same(Kept(u, tagged), Kept(v, tagged))
  {
    hide Same;
    if u == HOLE_NAN {
      SameNaN(v);
    } else if v == HOLE_NAN {
      SameNaN(u);
    }
    SameFacts(Hole, Hole, Hole);
  }

  /** Elements that are tagged and have held the NaN are never raw again. */
  lemma KeptStep(spec: Value, was: Value, now: Value, k: ElementsKind, k': ElementsKind)
    requires IsKind(k) && IsKind(k') && Below(k, k') && Admits(k, spec)
    requires Same(was, Kept(spec, !IsInNumbers(k))) && Same(now, Kept(was, !IsInNumbers(k')))
    ensures Same(now, Kept(spec, !IsInNumbers(k'))) && Admits(k', spec)
  {
    AdmitsMore(k, k', spec);
    KeptSame(was, Kept(spec, !IsInNumbers(k)), !IsInNumbers(k'));
    var kept := Kept(Kept(spec, !IsInNumbers(k)), !IsInNumbers(k'));
    assert kept == Kept(spec, !IsInNumbers(k'));
    hide Kept, Below, Same;
    SameFacts(now, Kept(was, !IsInNumbers(k')), kept);
  }

  // ---------------------------------------------------------------------------------------------
  // One word

  /** A value of the kind, converted and read back, is what is kept of it, and no fatal branch is met. */
  lemma ConvertThenRead(v: Value, mutant: bool, k: ElementsKind)
    requires IsKind(k) && Admits(k, v) && (mutant ==> IsInNumbers(k))
    ensures var w := ConvertTaggedValueWithElementsKind(v, ReadKind(mutant, k));
            && w.Some? && WordOk(w.value, mutant, k) && Same(Read(w.value, mutant, k), Kept(v, !mutant))
  {
    var w := ConvertTaggedValueWithElementsKind(v, ReadKind(mutant, k));
    if mutant {
      MutantKinds(k, v);
      if v.Int? {
        SignExtendedRoundTrip(v.n);
        DoubleOfIntValue(v.n);
      }
      hide DoubleOfInt, NumeralOf;
      assert Holds(w.value, mutant, k, Read(w.value, mutant, k));
    } else {
      UntagTag(v);
      assert Holds(w.value, mutant, k, Kept(v, true));
    }
  }

  /** What a mutant array of each kind may hold. */
  lemma MutantKinds(k: ElementsKind, v: Value)
    requires IsKind(k) && IsInNumbers(k) && Admits(k, v)
    ensures v.Hole? || v.Int? || (v.Double? && IsNumberKind(k))
    ensures k == INT || k == HOLE_INT || k == NUMBER || k == HOLE_NUMBER
    ensures IsNumberKind(k) ==> Below(NUMBER, k)
  {
  }

  // ---------------------------------------------------------------------------------------------
  // Migrating one word

  /** The body of the loop of `MigrateFromRawValueToHeapValue`. */
  function RawToHeap(w: Word, isInt: bool): Word {
    if w == Bits(SPECIAL_HOLE) || w.Pointer? then Tag(Hole)
    else if isInt then Tag(Int(ToInt32(w.bits)))
    else if w.bits < 0xFFFE_0000_0000_0000 then Tag(Double(w.bits))
    else Tag(Hole)
  }

  /** The body of the loop of `MigrateFromHeapValueToRawValue`. */
  function HeapToRaw(w: Word, isInt: bool): Word {
    match Untag(w)
    case Int(n) => Bits(if isInt then SignExtended(n) else DoubleOfInt(n))
    case Double(d) => Bits(if isInt then SignExtended(ToInt32(d % TWO48)) else d)
    case _ => Bits(SPECIAL_HOLE)
  }

  /** The body of the loop of `MigrateFromHoleIntToHoleNumber`. */
  function IntToNumber(w: Word): Word {
    if w == Bits(SPECIAL_HOLE) || w.Pointer? then w else Bits(DoubleOfInt(ToInt32(w.bits)))
  }

  /** `now` says under the new kind what is kept of what `was` said under the old one. */
  ghost predicate Carried(was: Word, oldMutant: bool, oldKind: ElementsKind, now: Word, newMutant: bool, newKind: ElementsKind) {
    WordOk(now, newMutant, newKind) && Same(Read(now, newMutant, newKind), Kept(Read(was, oldMutant, oldKind), !newMutant))
  }

  lemma AdmitsMore(k: ElementsKind, k': ElementsKind, v: Value)
    requires Below(k, k') && Admits(k, v)
    ensures Admits(k', v)
  {
    BelowIsOrder(ToElementsKind(v), k, k');
  }

  lemma RawToHeapCarries(w: Word, oldKind: ElementsKind, newKind: ElementsKind)
    requires IsKind(oldKind) && IsKind(newKind) && Below(oldKind, newKind)
    requires IsInNumbers(oldKind) && !IsInNumbers(newKind) && WordOk(w, true, oldKind)
    ensures Carried(w, true, oldKind, RawToHeap(w, oldKind == INT || oldKind == HOLE_INT), false, newKind)
  {
    var v :| Holds(w, true, oldKind, v);
    MutantKinds(oldKind, v);
    AdmitsMore(oldKind, newKind, v);
    UntagTag(v);
    var w' := RawToHeap(w, oldKind == INT || oldKind == HOLE_INT);
    assert Holds(w', false, newKind, Kept(v, true));
  }

  lemma HeapToRawCarries(w: Word, oldKind: ElementsKind, newKind: ElementsKind)
    requires IsKind(oldKind) && IsKind(newKind) && Below(oldKind, newKind)
    requires !IsInNumbers(oldKind) && IsInNumbers(newKind) && WordOk(w, false, oldKind)
    ensures Carried(w, false, oldKind, HeapToRaw(w, newKind == INT || newKind == HOLE_INT), true, newKind)
  {
    var v :| Holds(w, false, oldKind, v);
    assert v == Hole;
    UntagTag(v);
    assert Holds(Bits(SPECIAL_HOLE), true, newKind, Hole);
  }

  lemma IntToNumberCarries(w: Word, oldKind: ElementsKind, newKind: ElementsKind)
    requires IsKind(oldKind) && IsKind(newKind) && Below(oldKind, newKind)
    requires (oldKind == INT || oldKind == HOLE_INT) && IsNumberKind(newKind) && WordOk(w, true, oldKind)
    ensures Carried(w, true, oldKind, IntToNumber(w), true, newKind)
  {
    var v :| Holds(w, true, oldKind, v);
    MutantKinds(oldKind, v);
    MutantKinds(newKind, Hole);
    var v' := if v.Int? then Double(DoubleOfInt(v.n)) else v;
    if v.Int? {
      DoubleOfIntValue(v.n);
    }
    hide DoubleOfInt, NumeralOf;
    AdmitsMore(NUMBER, newKind, Double(0));
    assert Holds(IntToNumber(w), true, newKind, v');
  }

  /** A word that is not rewritten. */
  lemma SameWordCarries(w: Word, mutant: bool, oldKind: ElementsKind, newKind: ElementsKind)
    requires IsKind(oldKind) && IsKind(newKind) && Below(oldKind, newKind) && WordOk(w, mutant, oldKind)
    requires if mutant then IsInNumbers(newKind) && (IsNumberKind(oldKind) <==> IsNumberKind(newKind)) else true
    requires mutant ==> IsInNumbers(oldKind)
    ensures Carried(w, mutant, oldKind, w, mutant, newKind)
  {
    var v :| Holds(w, mutant, oldKind, v);
    AdmitsMore(oldKind, newKind, v);
    assert Holds(w, mutant, newKind, v);
  }

  // ---------------------------------------------------------------------------------------------
  // Arrays

  /** What all the words say. */
  function ReadAll(words: seq<Word>, mutant: bool, k: ElementsKind): (values: seq<Value>)
    ensures |values| == |words|
    ensures forall i :: 0 <= i < |words| ==> values[i] == Read(words[i], mutant, k)
  {
    seq(|words|, i requires 0 <= i < |words| => Read(words[i], mutant, k))
  }

  ghost predicate WordsOk(words: seq<Word>, mutant: bool, k: ElementsKind) {
    && IsKind(k) && (mutant <==> IsInNumbers(k))
    && forall i :: 0 <= i < |words| ==> WordOk(words[i], mutant, k)
  }

  ghost predicate KeptAll(now: seq<Value>, was: seq<Value>, tagged: bool) {
    |now| == |was| && forall i :: 0 <= i < |was| ==> Same(now[i], Kept(was[i], tagged))
  }

  ghost predicate CarriedAll(was: seq<Word>, oldMutant: bool, oldKind: ElementsKind,
                             now: seq<Word>, newMutant: bool, newKind: ElementsKind) {
    && |was| == |now|
    && forall i :: 0 <= i < |was| ==> Carried(was[i], oldMutant, oldKind, now[i], newMutant, newKind)
  }

  lemma CarriedContents(was: seq<Word>, oldMutant: bool, oldKind: ElementsKind,
                        now: seq<Word>, newMutant: bool, newKind: ElementsKind)
    requires CarriedAll(was, oldMutant, oldKind, now, newMutant, newKind)
    requires IsKind(newKind) && (newMutant <==> IsInNumbers(newKind))
    ensures WordsOk(now, newMutant, newKind)
    ensures KeptAll(ReadAll(now, newMutant, newKind), ReadAll(was, oldMutant, oldKind), !newMutant)
  {
    hide Same, Read, WordOk, Kept;
  }

  function MergeElementsKindNoFix(value: Value, k: ElementsKind, extraKind: ElementsKind): ElementsKind {
    ToElementsKind(value) | k | extraKind
  }

  /** `JSHClass::TransitToElementsKind`: the kind after a store. */
  function NextKind(k: ElementsKind, value: Value, extraKind: ElementsKind): ElementsKind {
    if k == GENERIC then k else FixElementsKind(MergeElementsKindNoFix(value, k, extraKind))
  }

  lemma NextKindFacts(k: ElementsKind, value: Value, extraKind: ElementsKind)
    requires IsKind(k) && IsKind(extraKind)
    ensures IsKind(NextKind(k, value, extraKind)) && Below(k, NextKind(k, value, extraKind))
    ensures Admits(NextKind(k, value, extraKind), value)
    ensures Below(extraKind, NextKind(k, value, extraKind))
    ensures NextKind(k, value, extraKind) == k <==> k == GENERIC || MergeElementsKindNoFix(value, k, extraKind) == k
    ensures NextKind(k, value, NONE) == MergeElementsKind(k, ToElementsKind(value))
  {
    KindOfValue(value);
  }

  /** It is the least kind above the old kind, the extra kind and the kind of the value. */
  lemma NextKindIsLeast(k: ElementsKind, value: Value, extraKind: ElementsKind, upper: ElementsKind)
    requires IsKind(k) && IsKind(extraKind) && IsKind(upper)
    requires Below(k, upper) && Below(extraKind, upper) && Below(ToElementsKind(value), upper)
    ensures Below(NextKind(k, value, extraKind), upper)
  {
    KindOfValue(value);
  }

  /** Below a raw kind there are only the empty kinds and raw kinds; a raw kind goes to a raw kind no lower. */
  lemma MutantSteps(k: ElementsKind, k': ElementsKind)
    requires IsKind(k) && IsKind(k') && Below(k, k')
    ensures IsInNumbers(k) && IsInNumbers(k') && IsNumberKind(k) ==> IsNumberKind(k')
    ensures IsInNumbers(k) ==> (IsStringOrNoneOrHole(k') <==> !IsInNumbers(k'))
    ensures IsInNumbers(k) <==> k == INT || k == HOLE_INT || IsNumberKind(k)
    ensures IsInNumbers(k') <==> k' == INT || k' == HOLE_INT || IsNumberKind(k')
    ensures IsNumberKind(k) ==> k' != INT && k' != HOLE_INT
  {
  }

  class JSArray {
    var kind: ElementsKind
    var elements: array<Word>
    var mutant: bool           // whether `elements` is a mutant array

    ghost predicate Valid()
      reads this, elements
    {
      WordsOk(elements[..], mutant, kind)
    }

    ghost function Contents(): (values: seq<Value>)
      reads this, elements
      ensures |values| == elements.Length
    {
      ReadAll(elements[..], mutant, kind)
    }

    /** An empty array with spare capacity. */
    constructor (capacity: nat)
      ensures Valid() && kind == NONE && elements.Length == capacity && fresh(elements)
      ensures forall i :: 0 <= i < capacity ==> Contents()[i] == Hole
    {
      kind, mutant := NONE, false;
      elements := new Word[capacity](_ => Tag(Hole));
      new;
      assert Holds(Tag(Hole), false, NONE, Hole);
    }

    /** `ElementAccessor::Get`: the element, never by way of the fatal default. */
    method Get(idx: nat) returns (v: Value)
      requires Valid() && idx < elements.Length
      ensures v == Contents()[idx]
    {
      var k := if mutant then kind else GENERIC;
      var r := GetTaggedValueWithElementsKind(elements[idx], k);
      assert WordOk(elements[..][idx], mutant, kind);
      assert r.Some?;
      v := r.value;
    }

    /** Changes only the hidden class: the elements are still encoded by the old kind. */
    method TransitToElementsKind(value: Value, extraKind: ElementsKind) returns (changed: bool)
      requires IsKind(kind) && IsKind(extraKind)
      modifies this`kind
      ensures kind == NextKind(old(kind), value, extraKind)
      ensures changed <==> kind != old(kind)
    {
      hide IsKind, Below, Admits, MergeElementsKind, MergeElementsKindNoFix, FixElementsKind;
      NextKindFacts(kind, value, extraKind);
      if kind == GENERIC {
        return false;
      }
      var newKind := MergeElementsKindNoFix(value, kind, extraKind);
      if newKind == kind {
        return false;
      }
      kind := FixElementsKind(newKind);
      return true;
    }

    method MigrateFromRawValueToHeapValue(isIntKind: bool)
      modifies this`elements, this`mutant
      ensures fresh(elements) && !mutant && elements.Length == old(elements.Length)
      ensures forall i :: 0 <= i < elements.Length ==> elements[i] == RawToHeap(old(elements[i]), isIntKind)
    {
      var newElements := new Word[elements.Length](_ => Tag(Hole));
      var source := elements;
      for i := 0 to source.Length
        modifies newElements
        invariant forall j :: 0 <= j < i ==> newElements[j] == RawToHeap(source[j], isIntKind)
      {
        newElements[i] := RawToHeap(source[i], isIntKind);
      }
      elements, mutant := newElements, false;
    }

    method MigrateFromHeapValueToRawValue(isIntKind: bool)
      modifies this`elements, this`mutant
      ensures fresh(elements) && mutant && elements.Length == old(elements.Length)
      ensures forall i :: 0 <= i < elements.Length ==> elements[i] == HeapToRaw(old(elements[i]), isIntKind)
    {
      var newElements := new Word[elements.Length](_ => Bits(SPECIAL_HOLE));
      var source := elements;
      for i := 0 to source.Length
        modifies newElements
        invariant forall j :: 0 <= j < i ==> newElements[j] == HeapToRaw(source[j], isIntKind)
      {
        newElements[i] := HeapToRaw(source[i], isIntKind);
      }
      elements, mutant := newElements, true;
    }

    /** In place. */
    method MigrateFromHoleIntToHoleNumber()
      modifies elements
      ensures forall i :: 0 <= i < elements.Length ==> elements[i] == IntToNumber(old(elements[i]))
    {
      for i := 0 to elements.Length
        invariant forall j :: 0 <= j < i ==> elements[j] == IntToNumber(old(elements[j]))
        invariant forall j :: i <= j < elements.Length ==> elements[j] == old(elements[j])
      {
        if elements[i] != Bits(SPECIAL_HOLE) {
          elements[i] := IntToNumber(elements[i]);
        }
      }
    }

    /** Re-encodes the elements of the old kind for a kind above it; they say the same, save for the NaN that becomes
        a hole when raw elements become tagged. */
    method MigrateArrayWithKind(oldKind: ElementsKind, newKind: ElementsKind)
      requires WordsOk(elements[..], mutant, oldKind)
      requires IsKind(newKind) && Below(oldKind, newKind)
      modifies this`elements, this`mutant, elements
      ensures elements == old(elements) || fresh(elements)
      ensures WordsOk(elements[..], mutant, newKind)
      ensures KeptAll(ReadAll(elements[..], mutant, newKind), old(ReadAll(elements[..], mutant, oldKind)), !mutant)
    {
      hide WordOk, Same, RawToHeap, HeapToRaw, IntToNumber, Carried, Below, ReadAll;
      ghost var was, wasMutant := elements[..], mutant;
      MutantSteps(oldKind, newKind);
      if oldKind == newKind || (oldKind == INT && newKind == HOLE_INT) || (oldKind == NUMBER && newKind == HOLE_NUMBER) {
        forall i | 0 <= i < |was| ensures Carried(was[i], mutant, oldKind, was[i], mutant, newKind) {
          SameWordCarries(was[i], mutant, oldKind, newKind);
        }
      } else if oldKind == INT || oldKind == HOLE_INT {
        HandleIntKindMigration(oldKind, newKind);
      } else if IsNumberKind(oldKind) {
        HandleNumberKindMigration(oldKind, newKind);
      } else {
        HandleOtherKindMigration(oldKind, newKind);
      }
      CarriedContents(was, wasMutant, oldKind, elements[..], mutant, newKind);
    }

    method HandleIntKindMigration(oldKind: ElementsKind, newKind: ElementsKind)
      requires WordsOk(elements[..], mutant, oldKind) && IsKind(newKind) && Below(oldKind, newKind)
      requires oldKind == INT || oldKind == HOLE_INT
      modifies this`elements, this`mutant, elements
      ensures elements == old(elements) || fresh(elements)
      ensures mutant <==> IsInNumbers(newKind)
      ensures CarriedAll(old(elements[..]), true, oldKind, elements[..], mutant, newKind)
    {
      hide WordOk, Same, RawToHeap, IntToNumber, Carried, Below;
      ghost var was := elements[..];
      MutantSteps(oldKind, newKind);
      if IsStringOrNoneOrHole(newKind) {
        MigrateFromRawValueToHeapValue(true);
        forall i | 0 <= i < |was| ensures Carried(was[i], true, oldKind, elements[..][i], false, newKind) {
          RawToHeapCarries(was[i], oldKind, newKind);
        }
      } else if newKind == NUMBER || newKind == HOLE_NUMBER {
        MigrateFromHoleIntToHoleNumber();
        forall i | 0 <= i < |was| ensures Carried(was[i], true, oldKind, elements[..][i], true, newKind) {
          IntToNumberCarries(was[i], oldKind, newKind);
        }
      } else {
        forall i | 0 <= i < |was| ensures Carried(was[i], true, oldKind, was[i], true, newKind) {
          SameWordCarries(was[i], true, oldKind, newKind);
        }
      }
    }

    method HandleNumberKindMigration(oldKind: ElementsKind, newKind: ElementsKind)
      requires WordsOk(elements[..], mutant, oldKind) && IsKind(newKind) && Below(oldKind, newKind)
      requires IsNumberKind(oldKind)
      modifies this`elements, this`mutant
      ensures elements == old(elements) || fresh(elements)
      ensures mutant <==> IsInNumbers(newKind)
      ensures CarriedAll(old(elements[..]), true, oldKind, elements[..], mutant, newKind)
    {
      hide WordOk, Same, RawToHeap, Carried, Below;
      ghost var was := elements[..];
      MutantSteps(oldKind, newKind);
      if IsStringOrNoneOrHole(newKind) {
        MigrateFromRawValueToHeapValue(false);
        forall i | 0 <= i < |was| ensures Carried(was[i], true, oldKind, elements[..][i], false, newKind) {
          RawToHeapCarries(was[i], oldKind, newKind);
        }
      } else {
        forall i | 0 <= i < |was| ensures Carried(was[i], true, oldKind, was[i], true, newKind) {
          SameWordCarries(was[i], true, oldKind, newKind);
        }
      }
    }

    method HandleOtherKindMigration(oldKind: ElementsKind, newKind: ElementsKind)
      requires WordsOk(elements[..], mutant, oldKind) && IsKind(newKind) && Below(oldKind, newKind)
      requires !IsInNumbers(oldKind)
      modifies this`elements, this`mutant
      ensures elements == old(elements) || fresh(elements)
      ensures mutant <==> IsInNumbers(newKind)
      ensures CarriedAll(old(elements[..]), false, oldKind, elements[..], mutant, newKind)
    {
      hide WordOk, Same, HeapToRaw, Carried, Below;
      ghost var was := elements[..];
      MutantSteps(oldKind, newKind);
      if newKind == INT || newKind == HOLE_INT {
        MigrateFromHeapValueToRawValue(true);
        forall i | 0 <= i < |was| ensures Carried(was[i], false, oldKind, elements[..][i], true, newKind) {
          HeapToRawCarries(was[i], oldKind, newKind);
        }
      } else if IsNumberKind(newKind) {
        MigrateFromHeapValueToRawValue(false);
        forall i | 0 <= i < |was| ensures Carried(was[i], false, oldKind, elements[..][i], true, newKind) {
          HeapToRawCarries(was[i], oldKind, newKind);
        }
      } else {
        forall i | 0 <= i < |was| ensures Carried(was[i], false, oldKind, was[i], false, newKind) {
          SameWordCarries(was[i], false, oldKind, newKind);
        }
      }
    }

    /** The first half of `ElementAccessor::Set`: a new kind if the value needs one, and the migration it causes. */
    method MakeRoom(value: Value, needTransition: bool, extraKind: ElementsKind)
      requires Valid() && IsKind(extraKind) && (needTransition || Admits(kind, value))
      modifies this, elements
      ensures elements == old(elements) || fresh(elements)
      ensures kind == if needTransition then NextKind(old(kind), value, extraKind) else old(kind)
      ensures Valid() && Admits(kind, value) && IsKind(kind) && (mutant <==> IsInNumbers(kind))
      ensures KeptAll(Contents(), old(Contents()), !mutant)
    {
      hide WordOk, Same, Read, Below, NextKind, WordsOk, ReadAll, Kept;
      KindFacts(elements[..], mutant, kind);
      KeptAsItWas(elements[..], mutant, kind);
      if needTransition {
        var oldKind := kind;
        NextKindFacts(kind, value, extraKind);
        var changed := TransitToElementsKind(value, extraKind);
        if changed {
          MigrateArrayWithKind(oldKind, kind);
        }
      }
      KindFacts(elements[..], mutant, kind);
    }

    /** `ElementAccessor::Set`: afterwards the slot has the value and every other slot what it had, numerically, for
        every migration this causes, except that tagged elements keep a hole for the one NaN. */
    method Set(idx: nat, value: Value, needTransition: bool, extraKind: ElementsKind)
      requires Valid() && idx < elements.Length && IsKind(extraKind)
      requires needTransition || Admits(kind, value)
      modifies this, elements
      ensures elements.Length == old(elements.Length) && (elements == old(elements) || fresh(elements))
      ensures kind == if needTransition then NextKind(old(kind), value, extraKind) else old(kind)
      ensures Valid() && Same(Contents()[idx], Kept(value, !mutant))
      ensures forall j :: 0 <= j < elements.Length && j != idx ==> Same(Contents()[j], Kept(old(Contents()[j]), !mutant))
    {
      hide WordOk, Same, Read, Below, NextKind, ConvertTaggedValueWithElementsKind, WordsOk, ReadAll, Kept, IsInNumbers;
      MakeRoom(value, needTransition, extraKind);
      ghost var before := elements[..];
      var k := if mutant then kind else GENERIC;
      var w := ConvertTaggedValueWithElementsKind(value, k);
      ConvertThenRead(value, mutant, kind);
      elements[idx] := w.value;
      StoredOne(before, elements[..], mutant, kind, idx, w.value);
    }
  }

  lemma KindFacts(words: seq<Word>, mutant: bool, k: ElementsKind)
    requires WordsOk(words, mutant, k)
    ensures IsKind(k) && (mutant <==> IsInNumbers(k))
  {
  }

  /** Tagged elements never say the NaN, so what is in them is kept. */
  lemma KeptAsItWas(words: seq<Word>, mutant: bool, k: ElementsKind)
    requires WordsOk(words, mutant, k)
    ensures KeptAll(ReadAll(words, mutant, k), ReadAll(words, mutant, k), !mutant)
    ensures forall i :: 0 <= i < |words| ==> Admits(k, ReadAll(words, mutant, k)[i])
  {
    hide Read, WordOk, Admits;
    forall i | 0 <= i < |words|
      ensures Admits(k, ReadAll(words, mutant, k)[i])
      ensures Same(ReadAll(words, mutant, k)[i], Kept(ReadAll(words, mutant, k)[i], !mutant))
    {
      ReadFacts(words[i], mutant, k);
    }
  }

  lemma StoredOne(before: seq<Word>, now: seq<Word>, mutant: bool, k: ElementsKind, idx: nat, w: Word)
    requires idx < |before| && now == before[idx := w] && WordsOk(before, mutant, k) && WordOk(w, mutant, k)
    ensures WordsOk(now, mutant, k)
    ensures ReadAll(now, mutant, k) == ReadAll(before, mutant, k)[idx := Read(w, mutant, k)]
  {
    hide WordOk, Read;
  }

  /** Slot `j` has what the elements keep of `spec`. */
  ghost predicate SlotKeeps(a: JSArray, j: nat, spec: Value)
    reads a, a.elements
  {
    && j < a.elements.Length && Admits(a.kind, spec)
    && Same(a.Contents()[j], Kept(spec, !IsInNumbers(a.kind)))
  }

  /** `Set` on a valid array, slot by slot. */
  method SetSlot(a: JSArray, idx: nat, value: Value, ghost specs: seq<Value>, ghost specs': seq<Value>)
    requires a.Valid() && idx < a.elements.Length == |specs| && specs' == specs[idx := value]
    requires forall j: nat :: j < |specs| ==> SlotKeeps(a, j, specs[j])
    modifies a, a.elements
    ensures a.Valid() && a.elements.Length == |specs| && (a.elements == old(a.elements) || fresh(a.elements))
    ensures a.kind == NextKind(old(a.kind), value, NONE)
    ensures forall j: nat :: j < |specs| ==> SlotKeeps(a, j, specs'[j])
  {
    hide WordOk, Same, Read, Below, NextKind, WordsOk, ReadAll, Kept;
    ghost var was, k := a.Contents(), a.kind;
    KindFacts(a.elements[..], a.mutant, a.kind);
    NextKindFacts(a.kind, value, NONE);
    a.Set(idx, value, true, NONE);
    KindFacts(a.elements[..], a.mutant, a.kind);
    forall j: nat | j < |specs| ensures SlotKeeps(a, j, specs'[j]) {
      if j != idx {
        KeptStep(specs[j], was[j], a.Contents()[j], k, a.kind);
      }
    }
  }

  lemma StartKeeps(a: JSArray)
    requires a.Valid()
    ensures forall j: nat :: j < a.elements.Length ==> SlotKeeps(a, j, a.Contents()[j])
  {
    hide WordOk, Same, Kept, ReadAll;
    KeptAsItWas(a.elements[..], a.mutant, a.kind);
  }

  /** `ElementAccessor::CopyJSArrayObject`: the prefix of a distinct destination becomes the source's and its tail
      stays, except that a destination that is tagged in the end has a hole for the one NaN. */
  method CopyJSArrayObject(src: JSArray, dst: JSArray, effectiveLength: nat)
    requires src != dst && src.elements != dst.elements && src.Valid() && dst.Valid()
    requires effectiveLength <= src.elements.Length && effectiveLength <= dst.elements.Length
    modifies dst, dst.elements
    ensures dst.Valid() && dst.elements.Length == old(dst.elements.Length)
    ensures forall i :: 0 <= i < effectiveLength ==> Same(dst.Contents()[i], Kept(src.Contents()[i], !dst.mutant))
    ensures forall i :: effectiveLength <= i < dst.elements.Length ==>
              Same(dst.Contents()[i], Kept(old(dst.Contents()[i]), !dst.mutant))
  {
    hide WordOk, Same, Read, Below, NextKind, WordsOk, ReadAll, Kept;
    ghost var from, specs := src.Contents(), dst.Contents();
    ghost var to := specs;
    StartKeeps(dst);
    for i := 0 to effectiveLength
      invariant dst.Valid() && dst.elements.Length == |to| == |specs|
      invariant dst.elements == old(dst.elements) || fresh(dst.elements)
      invariant forall j :: 0 <= j < |to| ==> specs[j] == if j < i then from[j] else to[j]
      invariant forall j: nat :: j < |specs| ==> SlotKeeps(dst, j, specs[j])
    {
      var v := src.Get(i);
      SetSlot(dst, i, v, specs, specs[i := v]);
      specs := specs[i := v];
    }
    KindFacts(dst.elements[..], dst.mutant, dst.kind);
    assert forall j: nat :: j < |specs| ==> SlotKeeps(dst, j, specs[j]);
  }

  // ---------------------------------------------------------------------------------------------
  // Whole runs

  datatype Store = Store(idx: nat, value: Value)

  function StoreAll(values: seq<Value>, stores: seq<Store>): (r: seq<Value>)
    requires forall i :: 0 <= i < |stores| ==> stores[i].idx < |values|
    ensures |r| == |values|
  {
    if stores == [] then values
    else
      var last := stores[|stores| - 1];
      StoreAll(values, stores[..|stores| - 1])[last.idx := last.value]
  }

  function ValuesOf(stores: seq<Store>): (values: seq<Value>)
    ensures |values| == |stores|
  {
    if stores == [] then [] else ValuesOf(stores[..|stores| - 1]) + [stores[|stores| - 1].value]
  }

  lemma StoreNone(values: seq<Value>)
    ensures StoreAll(values, []) == values && KindAfter(NONE, ValuesOf([])) == NONE
  {
  }

  lemma StoreStep(values: seq<Value>, stores: seq<Store>, n: nat)
    requires n < |stores| && forall i :: 0 <= i < |stores| ==> stores[i].idx < |values|
    ensures StoreAll(values, stores[..n + 1]) == StoreAll(values, stores[..n])[stores[n].idx := stores[n].value]
    ensures KindAfter(NONE, ValuesOf(stores[..n + 1]))
         == MergeElementsKind(KindAfter(NONE, ValuesOf(stores[..n])), ToElementsKind(stores[n].value))
  {
    assert stores[..n + 1][..n] == stores[..n];
    assert ValuesOf(stores[..n + 1])[..n] == ValuesOf(stores[..n]);
  }

  /** After any stores, in any order and of any values, the kind is the join of the kinds stored, and each slot has the
      last value stored in it as if the array had never been re-encoded, or a hole if and only if that value is the one
      NaN and the elements are tagged. */
  method RunStores(capacity: nat, stores: seq<Store>) returns (a: JSArray)
    requires forall i :: 0 <= i < |stores| ==> stores[i].idx < capacity
    ensures fresh(a) && a.Valid() && a.elements.Length == capacity
    ensures KeptAll(a.Contents(), StoreAll(seq(capacity, _ => Hole), stores), !a.mutant)
    ensures a.kind == KindAfter(NONE, ValuesOf(stores)) && (a.mutant <==> IsInNumbers(a.kind))
  {
    hide WordOk, Same, Read, NextKind, WordsOk, ReadAll, ToElementsKind, MergeElementsKind, Below, Kept, IsInNumbers,
         StoreAll, ValuesOf, KindAfter;
    ghost var holes := seq(capacity, _ => Hole);
    StoreNone(holes);
    a := new JSArray(capacity);
    assert a.Contents() == holes;
    StartKeeps(a);
    for n := 0 to |stores|
      invariant fresh(a) && fresh(a.elements) && a.Valid() && a.elements.Length == capacity
      invariant forall j: nat :: j < capacity ==> SlotKeeps(a, j, StoreAll(holes, stores[..n])[j])
      invariant a.kind == KindAfter(NONE, ValuesOf(stores[..n]))
    {
      KindFacts(a.elements[..], a.mutant, a.kind);
      NextKindFacts(a.kind, stores[n].value, NONE);
      StoreStep(holes, stores, n);
      SetSlot(a, stores[n].idx, stores[n].value, StoreAll(holes, stores[..n]), StoreAll(holes, stores[..n + 1]));
    }
    assert stores[..|stores|] == stores;
    KindFacts(a.elements[..], a.mutant, a.kind);
    forall j | 0 <= j < capacity ensures Same(a.Contents()[j], Kept(StoreAll(holes, stores)[j], !a.mutant)) {
      assert SlotKeeps(a, j, StoreAll(holes, stores)[j]);
    }
  }

  lemma OneThenTwo(v: Value, w: Value)
    ensures StoreAll(seq(2, _ => Hole), [Store(0, v)]) == [v, Hole]
    ensures StoreAll(seq(2, _ => Hole), [Store(0, v), Store(1, w)]) == [v, w]
    ensures KindAfter(NONE, ValuesOf([Store(0, v)])) == MergeElementsKind(NONE, ToElementsKind(v))
    ensures KindAfter(NONE, ValuesOf([Store(0, v), Store(1, w)]))
         == MergeElementsKind(MergeElementsKind(NONE, ToElementsKind(v)), ToElementsKind(w))
  {
    hide *;
    var holes, stores := seq(2, _ => Hole), [Store(0, v), Store(1, w)];
    assert stores[..0] == [] && stores[..1] == [Store(0, v)] && stores[..2] == stores;
    StoreNone(holes);
    StoreStep(holes, stores, 0);
    StoreStep(holes, stores, 1);
    assert holes[0 := v] == [v, Hole] && [v, Hole][1 := w] == [v, w];
  }

  /** The NaN survives in raw elements and is lost when a value that is no number makes them tagged. */
  method LosesNaN(s: Ref) returns (raw: JSArray, tagged: JSArray)
    ensures raw.Valid() && raw.Contents() == [HOLE_NAN, Hole]
    ensures tagged.Valid() && tagged.Contents() == [Hole, Heap(s)]
  {
    hide WordOk, Read, WordsOk, ReadAll, StoreAll, ValuesOf, KindAfter;
    OneThenTwo(HOLE_NAN, Heap(s));
    raw := RunStores(2, [Store(0, HOLE_NAN)]);
    tagged := RunStores(2, [Store(0, HOLE_NAN), Store(1, Heap(s))]);
    SameNaN(raw.Contents()[0]);
  }
}
