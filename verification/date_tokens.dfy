/** The tokens of date strings (`StringReader`, `DateUnit` and `DateProxy` of date_parse.h and date_parse.cpp). */
module DateTokens {

  const INT_MAX: int := 0x7FFF_FFFF
  const MAX_DECIMAL: int := (INT_MAX - 9) / 10
  const DEL: char := '\U{7F}'

  predicate IsDigit(c: char) {
    '0' <= c <= '9'
  }

  /** As the source has it: also the six characters between `Z` and `a`. */
  predicate IsAlpha(c: char) {
    'A' <= c <= 'z'
  }

  function Digit(c: char): nat
    requires IsDigit(c)
  {
    c as int - '0' as int
  }

  function GetLower(c: char): char {
    if 'A' <= c <= 'Z' then (c as int + 32) as char else c
  }

  datatype DateUnit =
    | Number(value: int, len: nat)   // its digits up to where it could overflow, and how many they are
    | Symbol(ch: char)
    | ZoneWord(zone: int)            // 0 for z, 1 for utc and gmt
    | TimeFlag
    | Month(month: int)
    | AmPm(hours: int)
    | InvalidWord
    | Space
    | Unknown
    | StringEnd
  {
    predicate IsSign() {
      this == Symbol('+') || this == Symbol('-')
    }

    predicate IsDecimal(n: nat) {
      Number? && len == n
    }

    predicate IsWordZ() {
      this == ZoneWord(0)
    }

    predicate IsValidFinallyTime() {
      StringEnd? || IsSign() || IsWordZ() || Space?
    }
  }

  // ---------------------------------------------------------------------------------------------
  // What a string consists of

  predicate AtEnd(s: string) {
    s == [] || s[0] == DEL
  }

  predicate StartsDigit(s: string) {
    s != [] && IsDigit(s[0])
  }

  predicate StartsAlpha(s: string) {
    s != [] && IsAlpha(s[0])
  }

  /** The number that the leading digits of `s` add to `num`, and how many digits count towards it. */
  function Count(s: string, num: nat): (nat, nat) {
    if !StartsDigit(s) then (num, 0)
    else
      var next := num * 10 + Digit(s[0]);
      if next > MAX_DECIMAL then (next, 1)
      else var (value, len) := Count(s[1..], next); (value, len + 1)
  }

  function SkipDigits(s: string): (r: string)
    ensures |r| <= |s| && !StartsDigit(r)
    ensures StartsDigit(s) ==> |r| < |s|
  {
    if StartsDigit(s) then SkipDigits(s[1..]) else s
  }

  function SkipAlpha(s: string): (r: string)
    ensures |r| <= |s| && !StartsAlpha(r)
    ensures StartsAlpha(s) ==> |r| < |s|
  {
    if StartsAlpha(s) then SkipAlpha(s[1..]) else s
  }

  /** The first letters, at most `n`, in lower case. */
  function Letters(s: string, n: nat): (w: string)
    ensures |w| <= n
  {
    if n > 0 && StartsAlpha(s) then [GetLower(s[0])] + Letters(s[1..], n - 1) else []
  }

  lemma AlphaStep(s: string, n: nat)
    ensures StartsAlpha(s) ==> SkipAlpha(s) == SkipAlpha(s[1..])
    ensures !StartsAlpha(s) ==> SkipAlpha(s) == s && Letters(s, n) == []
    ensures n == 0 ==> Letters(s, n) == []
    ensures StartsAlpha(s) && n == 0 ==> Letters(s[1..], n) == []
    ensures StartsAlpha(s) && n > 0 ==> Letters(s, n) == [GetLower(s[0])] + Letters(s[1..], n - 1)
  {
  }

  const MONTH_NAME: seq<string> :=
    ["jan", "feb", "mar", "apr", "may", "jun", "jul", "aug", "sep", "oct", "nov", "dec"]

  /** The 1-based number of a month name, or 0. */
  function MonthNumber(w: string): (m: int)
    ensures 0 <= m <= 12 && (m > 0 ==> MONTH_NAME[m - 1] == w)
    ensures m == 0 ==> w !in MONTH_NAME
  {
    if w == "jan" then 1 else if w == "feb" then 2 else if w == "mar" then 3 else if w == "apr" then 4
    else if w == "may" then 5 else if w == "jun" then 6 else if w == "jul" then 7 else if w == "aug" then 8
    else if w == "sep" then 9 else if w == "oct" then 10 else if w == "nov" then 11 else if w == "dec" then 12
    else 0
  }

  function KeyWord(w: string): DateUnit {
    if w == "t" then TimeFlag
    else if w == "z" then ZoneWord(0)
    else if w == "utc" || w == "gmt" then ZoneWord(1)
    else if MonthNumber(w) > 0 then Month(MonthNumber(w))
    else if w == "am" then AmPm(0)
    else if w == "pm" then AmPm(12)
    else InvalidWord
  }

  /** The first token of a string that is not at its end, and what follows it. */
  function Token(s: string): (r: (DateUnit, string))
    requires !AtEnd(s)
    ensures |r.1| < |s| && !r.0.StringEnd?
  {
    if StartsDigit(s) then (Number(Count(s, 0).0, Count(s, 0).1), SkipDigits(s))
    else if s[0] == ':' || s[0] == '+' || s[0] == '-' || s[0] == '.' then (Symbol(s[0]), s[1..])
    else if StartsAlpha(s) then (KeyWord(Letters(s, 3)), SkipAlpha(s))
    else if s[0] == ' ' || s[0] == '\t' then (Space, s[1..])
    else (Unknown, s[1..])
  }

  function Lex(s: string): (ts: seq<DateUnit>)
    ensures forall t :: t in ts ==> !t.StringEnd?
    decreases |s|
  {
    if AtEnd(s) then [] else [Token(s).0] + Lex(Token(s).1)
  }

  lemma LexStep(s: string)
    ensures AtEnd(s) ==> Lex(s) == []
    ensures !AtEnd(s) ==> Lex(s) == [Token(s).0] + Lex(Token(s).1) && Lex(s) != []
  {
  }

  function Head(ts: seq<DateUnit>): DateUnit {
    if ts == [] then StringEnd else ts[0]
  }

  function Tail(ts: seq<DateUnit>): seq<DateUnit> {
    if ts == [] then [] else ts[1..]
  }

  // ---------------------------------------------------------------------------------------------
  // Numbers

  function Decimal(digits: string): nat
    requires forall i :: 0 <= i < |digits| ==> IsDigit(digits[i])
  {
    if digits == [] then 0 else Decimal(digits[..|digits| - 1]) * 10 + Digit(digits[|digits| - 1])
  }

  /** The counted digits are leading digits of the string; the number they make stays below the largest int, and
      uncounted digits are left only when one more could overflow. */
  lemma {:induction false} CountFacts(s: string, num: nat)
    requires num <= MAX_DECIMAL
    ensures Count(s, num).0 < INT_MAX
    ensures Count(s, num).1 <= |s| && forall i :: 0 <= i < Count(s, num).1 ==> IsDigit(s[i])
    ensures StartsDigit(s) ==> Count(s, num).1 > 0
    ensures Count(s, num).0 <= MAX_DECIMAL ==> !StartsDigit(s[Count(s, num).1..])
  {
    if StartsDigit(s) {
      var next := num * 10 + Digit(s[0]);
      if next <= MAX_DECIMAL {
        CountFacts(s[1..], next);
        var k := Count(s[1..], next).1;
        assert Count(s, num) == (Count(s[1..], next).0, k + 1);
        assert s[1..][k..] == s[k + 1..];
        forall i | 0 <= i < k + 1 ensures IsDigit(s[i]) {
          assert i > 0 ==> s[i] == s[1..][i - 1];
        }
      } else {
        assert Count(s, num) == (next, 1);
      }
    } else {
      assert s[0..] == s;
    }
  }

  /** The number is the value of the counted digits. */
  lemma {:induction false} CountIsDecimal(before: string, s: string)
    requires forall i :: 0 <= i < |before| ==> IsDigit(before[i])
    requires Decimal(before) <= MAX_DECIMAL
    ensures var k := Count(s, Decimal(before)).1;
            k <= |s| && (forall i :: 0 <= i < k ==> IsDigit(s[i]))
            && (forall i :: 0 <= i < |before + s[..k]| ==> IsDigit((before + s[..k])[i]))
            && Count(s, Decimal(before)).0 == Decimal(before + s[..k])
    decreases |s|
  {
    var num := Decimal(before);
    CountFacts(s, num);
    var k := Count(s, num).1;
    if StartsDigit(s) {
      var more := before + [s[0]];
      assert more[..|more| - 1] == before;
      assert Decimal(more) == num * 10 + Digit(s[0]);
      if Decimal(more) <= MAX_DECIMAL {
        CountIsDecimal(more, s[1..]);
        assert more + s[1..][..k - 1] == before + s[..k];
      } else {
        assert before + s[..1] == more;
      }
    } else {
      assert before + s[..k] == before;
    }
  }

  // ---------------------------------------------------------------------------------------------
  // Reading

  class StringReader {
    const data: string
    var index: nat
    var value: char

    ghost predicate Valid()
      reads this
    {
      index >= 1 && value == if index - 1 < |data| then data[index - 1] else DEL
    }

    /** What is left to read, the current character first. */
    ghost function Rest(): string
      reads this
    {
      if 1 <= index <= |data| then data[index - 1..] else []
    }

    constructor (data: string)
      ensures Valid() && Rest() == data
    {
      this.data := data;
      value := if 0 < |data| then data[0] else DEL;
      index := 1;
    }

    method NextChar()
      requires Valid()
      modifies this
      ensures Valid() && Rest() == if old(Rest()) == [] then [] else old(Rest())[1..]
    {
      value := if index < |data| then data[index] else DEL;
      index := index + 1;
    }

    lemma Current()
      requires Valid()
      ensures IsDigit(value) <==> StartsDigit(Rest())
      ensures IsAlpha(value) <==> StartsAlpha(Rest())
      ensures value == DEL <==> AtEnd(Rest())
      ensures Rest() != [] ==> Rest()[0] == value
      ensures value != DEL ==> Rest() != []
    {
    }

    /** Never overflows, counts the digits up to the largest decimal, and consumes the whole run. */
    method ReadNumber() returns (num: int, len: nat)
      requires Valid()
      modifies this
      ensures Valid() && (num, len) == Count(old(Rest()), 0) && Rest() == SkipDigits(old(Rest()))
      ensures 0 <= num < INT_MAX
    {
      hide Valid, Rest;
      ghost var all := Rest();
      CountFacts(all, 0);
      num, len := 0, 0;
      Current();
      while IsDigit(value)
        invariant Valid() && 0 <= num <= MAX_DECIMAL
        invariant IsDigit(value) <==> StartsDigit(Rest())
        invariant Rest() != [] ==> Rest()[0] == value
        invariant Count(all, 0) == (Count(Rest(), num).0, len + Count(Rest(), num).1)
        invariant SkipDigits(all) == SkipDigits(Rest())
        decreases |Rest()|
      {
        Current();
        num := num * 10 + Digit(value);
        assert 0 <= num < INT_MAX;
        len := len + 1;
        if num > MAX_DECIMAL {
          break;
        }
        NextChar();
        Current();
      }
      Current();
      while IsDigit(value)
        invariant Valid() && SkipDigits(all) == SkipDigits(Rest())
        invariant IsDigit(value) <==> StartsDigit(Rest())
        decreases |Rest()|
      {
        NextChar();
        Current();
      }
    }

    /** The first letters in lower case, and how many letters there are; consumes them all. */
    method ReadAlphabet(size: nat) returns (word: string, length: nat)
      requires Valid()
      modifies this
      ensures Valid() && word == Letters(old(Rest()), size) && Rest() == SkipAlpha(old(Rest()))
      ensures |word| == if length < size then length else size
    {
      hide Valid, Rest, Letters, SkipAlpha;
      ghost var all := Rest();
      word, length := [], 0;
      Current();
      while IsAlpha(value)
        invariant Valid() && |word| == if length < size then length else size
        invariant IsAlpha(value) <==> StartsAlpha(Rest())
        invariant Rest() != [] ==> Rest()[0] == value
        invariant Letters(all, size) == word + Letters(Rest(), size - |word|)
        invariant SkipAlpha(all) == SkipAlpha(Rest())
        decreases |Rest()|
      {
        Current();
        AlphaStep(Rest(), size - |word|);
        if length < size {
          word := word + [GetLower(value)];
        }
        length := length + 1;
        NextChar();
        Current();
      }
      AlphaStep(Rest(), size - |word|);
    }
  }

  class DateProxy {
    const reader: StringReader
    var date: DateUnit

    ghost predicate Valid()
      reads this, reader
    {
      reader.Valid() && (date.StringEnd? ==> AtEnd(reader.Rest()))
    }

    /** The tokens still to come, the current one first. */
    ghost function Tokens(): seq<DateUnit>
      reads this, reader
    {
      if date.StringEnd? then [] else [date] + Lex(reader.Rest())
    }

    constructor (s: string)
      ensures Valid() && fresh(reader) && Tokens() == Lex(s) && date == Head(Tokens())
    {
      reader := new StringReader(s);
      date := StringEnd;
      new;
      Read();
    }

    /** Reads one token; the end is read again and again. */
    method Read()
      requires reader.Valid()
      modifies this, reader
      ensures Valid() && Tokens() == Lex(old(reader.Rest())) && date == Head(Tokens())
    {
      hide StringReader.Valid, StringReader.Rest, Count, KeyWord, Letters, Lex, SkipDigits, SkipAlpha;
      LexStep(reader.Rest());
      reader.Current();
      if IsDigit(reader.value) {
        var num, len := reader.ReadNumber();
        date := Number(num, len);
      } else if reader.value == DEL {
        date := StringEnd;
      } else if reader.value == ':' || reader.value == '+' || reader.value == '-' || reader.value == '.' {
        date := Symbol(reader.value);
        reader.NextChar();
      } else if IsAlpha(reader.value) {
        var word, len := reader.ReadAlphabet(3);
        date := MatchKeyWord(word);
      } else if reader.value == ' ' || reader.value == '\t' {
        date := Space;
        reader.NextChar();
      } else {
        date := Unknown;
        reader.NextChar();
      }
    }

    method MatchKeyWord(word: string) returns (unit: DateUnit)
      requires |word| <= 3
      ensures unit == KeyWord(word)
    {
      if |word| == 1 {
        if word == "t" {
          return TimeFlag;
        }
        if word == "z" {
          return ZoneWord(0);
        }
      } else if |word| == 3 {
        if word == "utc" || word == "gmt" {
          return ZoneWord(1);
        }
        for i := 0 to 12
          invariant forall j :: 0 <= j < i ==> word != MONTH_NAME[j]
        {
          if word == MONTH_NAME[i] {
            MonthAt(i);
            return Month(i + 1);
          }
        }
      } else if |word| == 2 {
        if word == "am" {
          return AmPm(0);
        }
        if word == "pm" {
          return AmPm(12);
        }
      }
      return InvalidWord;
    }

    method NextDate() returns (cur: DateUnit)
      requires Valid()
      modifies this, reader
      ensures Valid() && cur == Head(old(Tokens())) && Tokens() == Tail(old(Tokens()))
      ensures date == Head(Tokens()) && (cur.StringEnd? <==> old(Tokens()) == [])
    {
      cur := date;
      Read();
    }
  }

  lemma MonthAt(i: nat)
    requires i < 12
    ensures MonthNumber(MONTH_NAME[i]) == i + 1
  {
  }
}
