/** The kinds of array elements (elements.h, elements.cpp): bit sets, of which only twelve have a hidden class. */
module ElementsKinds {
  import opened TaggedValue

  type ElementsKind = bv8

  const NONE: ElementsKind := 0
  const HOLE: ElementsKind := 1
  const INT: ElementsKind := 2
  const HOLE_INT: ElementsKind := 3
  const NUMBER: ElementsKind := 6
  const HOLE_NUMBER: ElementsKind := 7
  const STRING: ElementsKind := 8
  const HOLE_STRING: ElementsKind := 9
  const OBJECT: ElementsKind := 16
  const HOLE_OBJECT: ElementsKind := 17
  const TAGGED: ElementsKind := 30
  const HOLE_TAGGED: ElementsKind := 31
  const GENERIC: ElementsKind := 31

  predicate IsKind(k: ElementsKind) {
    || k == NONE || k == HOLE || k == INT || k == HOLE_INT || k == NUMBER || k == HOLE_NUMBER || k == STRING
    || k == HOLE_STRING || k == OBJECT || k == HOLE_OBJECT || k == TAGGED || k == HOLE_TAGGED
  }

  predicate IsInNumbers(k: ElementsKind) {
    k > HOLE && k < STRING
  }

  predicate IsNumberKind(k: ElementsKind) {
    k >= NUMBER && k <= HOLE_NUMBER
  }

  predicate IsStringOrNoneOrHole(k: ElementsKind) {
    k >= STRING || k == NONE || k == HOLE
  }

  /** `FixElementsKind`; the table of hidden classes by kind maps each bit set in the same way. */
  function FixElementsKind(k: ElementsKind): ElementsKind {
    if IsKind(k) then k else if k & 1 == 1 then HOLE_TAGGED else TAGGED
  }

  function MergeElementsKind(a: ElementsKind, b: ElementsKind): ElementsKind {
    FixElementsKind(a | b)
  }

  function ToElementsKind(v: Value): ElementsKind {
    match v
    case Int(_) => INT
    case Double(_) => NUMBER
    case Heap(r) => if r.isString then STRING else OBJECT
    case Hole => HOLE
    case Special(_) => TAGGED
  }

  predicate Below(a: ElementsKind, b: ElementsKind) {
    a | b == b
  }

  /** An array of kind `k` may hold `v`; a hole fits anywhere, since spare capacity is filled with holes. */
  predicate Admits(k: ElementsKind, v: Value) {
    v.Hole? || Below(ToElementsKind(v), k)
  }

  /** What each kind stands for: which values, besides holes, an array of that kind may hold. */
  lemma KindMeaning(k: ElementsKind, v: Value)
    requires IsKind(k) && !v.Hole?
    ensures (k == NONE || k == HOLE) ==> !Admits(k, v)
    ensures (k == INT || k == HOLE_INT) ==> (Admits(k, v) <==> v.Int?)
    ensures (k == NUMBER || k == HOLE_NUMBER) ==> (Admits(k, v) <==> v.Int? || v.Double?)
    ensures (k == STRING || k == HOLE_STRING) ==> (Admits(k, v) <==> v.Heap? && v.ref.isString)
    ensures (k == OBJECT || k == HOLE_OBJECT) ==> (Admits(k, v) <==> v.Heap? && !v.ref.isString)
    ensures (k == TAGGED || k == HOLE_TAGGED) ==> Admits(k, v)
    ensures Below(HOLE, k) <==> k % 2 == 1
  {
  }

  /** Merging is the least upper bound of the twelve kinds. */
  lemma MergeIsJoin(a: ElementsKind, b: ElementsKind, upper: ElementsKind)
    requires IsKind(a) && IsKind(b) && IsKind(upper)
    ensures IsKind(MergeElementsKind(a, b))
    ensures Below(a, MergeElementsKind(a, b)) && Below(b, MergeElementsKind(a, b))
    ensures Below(a, upper) && Below(b, upper) ==> Below(MergeElementsKind(a, b), upper)
  {
  }

  lemma BelowIsOrder(a: ElementsKind, b: ElementsKind, c: ElementsKind)
    ensures Below(a, a)
    ensures Below(a, b) && Below(b, a) ==> a == b
    ensures Below(a, b) && Below(b, c) ==> Below(a, c)
  {
  }

  /** The kind of an array of kind `k` after values are stored in it, one after the other. */
  function KindAfter(k: ElementsKind, values: seq<Value>): ElementsKind {
    if values == [] then k
    else MergeElementsKind(KindAfter(k, values[..|values| - 1]), ToElementsKind(values[|values| - 1]))
  }

  ghost predicate Bounds(upper: ElementsKind, k: ElementsKind, values: seq<Value>) {
    IsKind(upper) && Below(k, upper) && forall i :: 0 <= i < |values| ==> Below(ToElementsKind(values[i]), upper)
  }

  lemma KindOfValue(v: Value)
    ensures IsKind(ToElementsKind(v))
  {
  }

  /** It is the least kind that bounds the old kind and the kind of every value. */
  lemma {:induction false} KindAfterIsLeast(k: ElementsKind, values: seq<Value>, upper: ElementsKind)
    requires IsKind(k)
    ensures Bounds(KindAfter(k, values), k, values)
    ensures Bounds(upper, k, values) ==> Below(KindAfter(k, values), upper)
    decreases |values|
  {
    hide Below, MergeElementsKind, ToElementsKind, IsKind;
    BelowIsOrder(k, k, k);
    if values != [] {
      var init, last := values[..|values| - 1], values[|values| - 1];
      KindAfterIsLeast(k, init, upper);
      KindOfValue(last);
      var was, now := KindAfter(k, init), KindAfter(k, values);
      MergeIsJoin(was, ToElementsKind(last), was);
      BelowIsOrder(k, was, now);
      forall i | 0 <= i < |values| ensures Below(ToElementsKind(values[i]), now) {
        if i < |values| - 1 {
          assert values[i] == init[i];
          BelowIsOrder(ToElementsKind(values[i]), was, now);
        }
      }
      if Bounds(upper, k, values) {
        assert forall i :: 0 <= i < |init| ==> init[i] == values[i];
        MergeIsJoin(was, ToElementsKind(last), upper);
      }
    }
  }

  /** So the order of the values does not matter, only which ones were stored. */
  lemma KindAfterAnyOrder(k: ElementsKind, values: seq<Value>, others: seq<Value>)
    requires IsKind(k)
    requires forall v :: v in values <==> v in others
    ensures KindAfter(k, values) == KindAfter(k, others)
    ensures forall v :: v in values ==> Admits(KindAfter(k, values), v)
  {
    hide Below, MergeElementsKind, ToElementsKind, IsKind, KindAfter;
    var a, b := KindAfter(k, values), KindAfter(k, others);
    KindAfterIsLeast(k, values, b);
    KindAfterIsLeast(k, others, a);
    forall i | 0 <= i < |values| ensures Below(ToElementsKind(values[i]), b) {
      assert values[i] in others;
    }
    forall i | 0 <= i < |others| ensures Below(ToElementsKind(others[i]), a) {
      assert others[i] in values;
    }
    BelowIsOrder(a, b, a);
  }
}
