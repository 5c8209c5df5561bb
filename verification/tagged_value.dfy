/** Tagged values (js_tagged_value.h, js_tagged_value_internals.h): 64-bit words that hold an int, a shifted double, a
    special marker or a pointer.  Pointers are kept symbolic, because the collector may move what they point to. */
module TaggedValue {
  import opened Basics

  const TWO31: int := 0x8000_0000
  const TWO32: int := 0x1_0000_0000
  const TWO48: int := 0x1_0000_0000_0000
  const TWO52: int := 0x10_0000_0000_0000
  const TWO63: int := 0x8000_0000_0000_0000
  const TWO64: int := 0x1_0000_0000_0000_0000
  const TAG_INT: int := 0xFFFF_0000_0000_0000
  const VALUE_HOLE: int := 5
  const SPECIAL_HOLE: int := 0xFFFE_0000_0000_0001

  type Int32 = n: int | -0x8000_0000 <= n < 0x8000_0000

  /** A word of memory. */
  type Word64 = b: int | 0 <= b < 0x1_0000_0000_0000_0000

  /** The bits of a double that can be tagged: all but the NaNs from 0xFFFE_0000_0000_0000 on. */
  type PureDouble = d: int | 0 <= d < 0xFFFE_0000_0000_0000

  /** A marker such as undefined, null, true or false: an object word that is no pointer and not the hole. */
  type Marker = m: int | 0 < m < 0x1_0000_0000_0000 && m != 5 witness 2

  datatype Ref = Ref(id: nat, isString: bool)

  datatype Word = Bits(bits: Word64) | Pointer(ref: Ref)

  datatype Value =
    | Hole
    | Int(n: Int32)
    | Double(d: PureDouble)
    | Special(m: Marker)
    | Heap(ref: Ref)

  /** `JSTaggedValue`'s constructors: an int is sign-extended under the int tag, a double is shifted by 2^48. */
  function Tag(v: Value): Word {
    match v
    case Hole => Bits(VALUE_HOLE)
    case Int(n) => Bits(if n >= 0 then TAG_INT + n else TWO64 + n)
    case Double(d) => Bits(d + TWO48)
    case Special(m) => Bits(m)
    case Heap(r) => Pointer(r)
  }

  /** The low 32 bits, as a signed number. */
  function ToInt32(b: Word64): Int32 {
    var low := b % TWO32;
    if low >= TWO31 then low - TWO32 else low
  }

  /** A signed number as a word. */
  function SignExtended(n: Int32): Word64 {
    if n >= 0 then n else TWO64 + n
  }

  /** `IsInt` with `GetInt`, `IsDouble` with `GetDouble`, and the rest. */
  function Untag(w: Word): Value {
    match w
    case Pointer(r) => Heap(r)
    case Bits(b) =>
      if b >= TAG_INT then Int(ToInt32(b % TWO48))
      else if b >= TWO48 then Double(b - TWO48)
      else if b == VALUE_HOLE || b == 0 then Hole
      else Special(b)
  }

  lemma UntagTag(v: Value)
    ensures Untag(Tag(v)) == v
  {
    if v.Int? {
      var b := Tag(v).bits;
      assert b % TWO48 == if v.n >= 0 then v.n else TWO48 + v.n;
    }
  }

  lemma SignExtendedRoundTrip(n: Int32)
    ensures ToInt32(SignExtended(n)) == n
    ensures SignExtended(n) != SPECIAL_HOLE
  {
  }

  // ---------------------------------------------------------------------------------------------
  // The double that an int converts to

  /** Doubles `m` until its leading bit is bit 52; also the number of doublings. */
  function Normalized(m: int, k: nat): (int, nat)
    requires m > 0
    decreases if m < TWO52 then TWO52 - m else 0
  {
    if m >= TWO52 then (m, k) else Normalized(2 * m, k + 1)
  }

  lemma {:induction false} NormalizedRange(m: int, k: nat)
    requires 0 < m < 2 * TWO52
    ensures TWO52 <= Normalized(m, k).0 < 2 * TWO52
    ensures k <= Normalized(m, k).1 && (m < TWO52 <==> k < Normalized(m, k).1)
    decreases if m < TWO52 then TWO52 - m else 0
  {
    if m < TWO52 {
      NormalizedRange(2 * m, k + 1);
    }
  }

  lemma {:induction false} NormalizedShift(m: int, k: nat, j: nat)
    requires j <= 52 && 0 < Pow2(j) <= m
    ensures Normalized(m, k).1 <= k + 52 - j
    decreases 52 - j
  {
    if m < TWO52 {
      Pow2Is52();
      assert Pow2(j + 1) == 2 * Pow2(j);
      NormalizedShift(2 * m, k + 1, j + 1);
    }
  }

  lemma Pow2Is52()
    ensures Pow2(52) == TWO52
  {
    assert Pow2(13) == 0x2000;
    assert Pow2(26) == 0x400_0000;
    assert Pow2(39) == 0x80_0000_0000;
  }

  /** Doubling does not change the number that is meant. */
  lemma {:induction false} NormalizedIs(m: int, k: nat)
    requires 0 < m < 2 * TWO52
    ensures Normalized(m, k).1 >= k && Normalized(m, k).0 == m * Pow2(Normalized(m, k).1 - k)
    decreases if m < TWO52 then TWO52 - m else 0
  {
    NormalizedRange(m, k);
    if m < TWO52 {
      NormalizedIs(2 * m, k + 1);
      var j := Normalized(m, k).1 - k;
      assert Pow2(j) == 2 * Pow2(j - 1);
      Reassociate(m, Pow2(j - 1));
    }
  }

  lemma Reassociate(m: int, p: int)
    ensures (2 * m) * p == m * (2 * p)
  {
  }

  /** `static_cast<double>` of an int, as bits: sign, biased exponent, and the mantissa without its leading bit. */
  function DoubleOfInt(n: Int32): PureDouble {
    if n == 0 then 0
    else
      var m := Abs(n);
      var (mantissa, shift) := Normalized(m, 0);
      NormalizedRange(m, 0);
      NormalizedShift(m, 0, 0);
      (if n < 0 then TWO63 else 0) + (1075 - shift) * TWO52 + (mantissa - TWO52)
  }

  // ---------------------------------------------------------------------------------------------
  // The number that a double means (IEEE 754 binary64)

  function SignBit(d: Word64): bool {
    d >= TWO63
  }

  function BiasedExponent(d: Word64): nat {
    d % TWO63 / TWO52
  }

  function Fraction(d: Word64): nat {
    d % TWO52
  }

  /** With the leading bit, which only subnormal numbers lack. */
  function Significand(d: Word64): nat {
    if BiasedExponent(d) == 0 then Fraction(d) else TWO52 + Fraction(d)
  }

  /** That of subnormal numbers is the one above. */
  function ExponentOf(d: Word64): nat {
    if BiasedExponent(d) == 0 then 1 else BiasedExponent(d)
  }

  /** Two to the power of `k`. */
  function Scale(k: int): (z: real)
    ensures z > 0.0
    decreases if k < 0 then -k else k
  {
    if k == 0 then 1.0 else if k > 0 then 2.0 * Scale(k - 1) else Scale(k + 1) / 2.0
  }

  function Scaled(m: nat, k: int): real {
    (m as real) * Scale(k)
  }

  /** A finite number, with the sign that tells the two zeros apart. */
  datatype Numeral = Numeral(negative: bool, magnitude: real)

  /** The number of a double; infinities and NaNs have none. */
  function NumeralOf(d: Word64): Option<Numeral> {
    if BiasedExponent(d) == 2047 then None
    else
      Some(Numeral(SignBit(d), Scaled(Significand(d), ExponentOf(d) - 1075)))
  }

  lemma FieldsOfDouble(negative: bool, exponent: nat, fraction: nat)
    requires exponent < 2048 && fraction < TWO52
    ensures var d := (if negative then TWO63 else 0) + exponent * TWO52 + fraction;
            0 <= d < TWO64 && SignBit(d) == negative && BiasedExponent(d) == exponent && Fraction(d) == fraction
  {
  }

  lemma {:induction false} ScaleStep(a: int, k: nat)
    ensures Scale(a + k) == Scale(a) * (Pow2(k) as real)
    decreases k
  {
    if k == 0 {
      assert Pow2(0) == 1;
    } else {
      ScaleStep(a, k - 1);
      assert Scale(a + k) == 2.0 * Scale(a + k - 1);
      var x, y := Scale(a), Pow2(k - 1) as real;
      assert Pow2(k) as real == 2.0 * y;
      hide Scale, Pow2;
      Regroup(x, y);
    }
  }

  lemma Regroup(x: real, y: real)
    ensures 2.0 * (x * y) == x * (2.0 * y)
  {
  }

  lemma Products(m: nat, n: nat, z: real)
    requires (n as real) * z == 1.0
    ensures ((m * n) as real) * z == m as real
  {
    var x, y := m as real, n as real;
    assert (m * n) as real == x * y;
    assert (x * y) * z == x * (y * z);
  }

  lemma ScaleBack(m: nat, k: nat)
    ensures ((m * Pow2(k)) as real) * Scale(0 - k) == m as real
  {
    ScaleStep(0 - k, k);
    var n, z := Pow2(k), Scale(0 - k);
    assert z * (n as real) == Scale(0) == 1.0;
    Products(m, n, z);
  }

  lemma NumeralFrom(negative: bool, exponent: nat, fraction: nat)
    requires 0 < exponent < 2047 && fraction < TWO52
    ensures var d := (if negative then TWO63 else 0) + exponent * TWO52 + fraction;
            && 0 <= d < TWO64
            && NumeralOf(d) == Some(Numeral(negative, Scaled(TWO52 + fraction, exponent - 1075)))
  {
    hide Scaled;
    FieldsOfDouble(negative, exponent, fraction);
  }

  lemma DoubleOfIntParts(n: Int32) returns (mantissa: nat, shift: nat)
    requires n != 0
    ensures shift <= 52 && TWO52 <= mantissa < 2 * TWO52 && Scaled(mantissa, 0 - shift) == Abs(n) as real
    ensures DoubleOfInt(n) == (if n < 0 then TWO63 else 0) + (1075 - shift) * TWO52 + (mantissa - TWO52)
  {
    var m := Abs(n);
    NormalizedRange(m, 0);
    NormalizedShift(m, 0, 0);
    NormalizedIs(m, 0);
    mantissa, shift := Normalized(m, 0).0, Normalized(m, 0).1;
    ScaleBack(m, shift);
  }

  /** The double of an int means that int, and is the positive zero for 0. */
  lemma DoubleOfIntValue(n: Int32)
    ensures NumeralOf(DoubleOfInt(n)) == Some(Numeral(n < 0, Abs(n) as real))
  {
    if n == 0 {
      ZeroMeansZero();
    } else {
      hide *;
      var mantissa, shift := DoubleOfIntParts(n);
      NumeralFrom(n < 0, 1075 - shift, mantissa - TWO52);
      assert TWO52 + (mantissa - TWO52) == mantissa;
    }
  }

  lemma ZeroMeansZero()
    ensures NumeralOf(0) == Some(Numeral(false, 0.0))
  {
  }

  /** Different ints convert to different doubles. */
  lemma DoubleOfIntInjective(m: Int32, n: Int32)
    ensures DoubleOfInt(m) == DoubleOfInt(n) ==> m == n
  {
    hide DoubleOfInt, NumeralOf;
    DoubleOfIntValue(m);
    DoubleOfIntValue(n);
  }

  /** The number of a value, if it is one. */
  function Number(v: Value): (r: Option<Numeral>) {
    match v
    case Int(n) => Some(Numeral(n < 0, Abs(n) as real))
    case Double(d) => NumeralOf(d)
    case _ => None
  }

  /** Equal, or equal as numbers, zeros of different sign told apart. */
  predicate Same(v: Value, w: Value) {
    v == w || (Number(v).Some? && Number(v) == Number(w))
  }

  /** Sameness is an equivalence that is equality on ints and on doubles. */
  lemma SameFacts(u: Value, v: Value, w: Value)
    ensures Same(u, u) && (Same(u, v) ==> Same(v, u)) && (Same(u, v) && Same(v, w) ==> Same(u, w))
    ensures Same(u, v) && ((u.Int? && v.Int?) || (u.Double? && v.Double?)) ==> u == v
    ensures Same(u, v) ==> (u.Hole? <==> v.Hole?)
  {
    hide NumeralOf;
    if u.Double? && v.Double? && Same(u, v) && u != v {
      NumeralUnique(u.d, v.d);
    }
  }

  // A number has one double

  lemma SignificandRange(d: Word64)
    ensures ExponentOf(d) >= 1 && Significand(d) < 2 * TWO52 && (ExponentOf(d) > 1 ==> Significand(d) >= TWO52)
    ensures d == (if SignBit(d) then TWO63 else 0) + BiasedExponent(d) * TWO52 + Fraction(d)
  {
  }

  lemma Larger(x: real, y: real, p: real, z: real)
    requires z > 0.0 && p >= 2.0 && 0.0 <= x < 2.0 * y
    ensures x * z < y * (z * p)
  {
    assert y * p >= y * 2.0;
    var w := y * p;
    assert x < w;
    assert x * z < w * z;
    assert w * z == y * (z * p);
  }

  /** A higher exponent means a larger magnitude. */
  lemma HigherExponent(c: Word64, d: Word64)
    requires ExponentOf(c) < ExponentOf(d)
    ensures Scaled(Significand(c), ExponentOf(c) - 1075) < Scaled(Significand(d), ExponentOf(d) - 1075)
  {
    hide Scale, Pow2, Significand, ExponentOf;
    SignificandRange(c);
    SignificandRange(d);
    var a, k := ExponentOf(c) - 1075, ExponentOf(d) - ExponentOf(c);
    ScaleStep(a, k);
    AtLeastTwo(k);
    Larger(Significand(c) as real, Significand(d) as real, Pow2(k) as real, Scale(a));
    assert a + k == ExponentOf(d) - 1075;
  }

  lemma AtLeastTwo(k: nat)
    requires k > 0
    ensures Pow2(k) >= 2
  {
  }

  /** A number has one double. */
  lemma NumeralUnique(c: Word64, d: Word64)
    requires NumeralOf(c).Some? && NumeralOf(c) == NumeralOf(d)
    ensures c == d
  {
    hide Scale, Significand;
    if ExponentOf(c) != ExponentOf(d) {
      DifferentMagnitudes(c, d);
    } else {
      SameSignificand(Significand(c), Significand(d), Scale(ExponentOf(c) - 1075));
      FromSignificand(c, d);
    }
  }

  lemma DifferentMagnitudes(c: Word64, d: Word64)
    requires NumeralOf(c).Some? && NumeralOf(d).Some? && ExponentOf(c) != ExponentOf(d)
    ensures NumeralOf(c) != NumeralOf(d)
  {
    hide Scale, Significand;
    if ExponentOf(c) < ExponentOf(d) {
      HigherExponent(c, d);
    } else {
      HigherExponent(d, c);
    }
  }

  lemma FromSignificand(c: Word64, d: Word64)
    requires SignBit(c) == SignBit(d) && ExponentOf(c) == ExponentOf(d) && Significand(c) == Significand(d)
    ensures c == d
  {
    SignificandRange(c);
    SignificandRange(d);
  }

  lemma SameSignificand(m: nat, n: nat, z: real)
    requires z > 0.0 && (m as real) * z == (n as real) * z
    ensures m == n
  {
    var x, y := m as real, n as real;
    assert (x - y) * z == 0.0;
  }
}
