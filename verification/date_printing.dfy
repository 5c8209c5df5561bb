/** Printed dates parse back: the Date Time String Format of ECMA-262 in all its forms, and the texts that
    js_date.cpp prints. */
module DatePrinting {
  import opened Basics
  import opened DateTokens
  import opened DateGrammar

  function DigitChar(d: nat): (c: char)
    requires d < 10
    ensures IsDigit(c) && Digit(c) == d
  {
    ('0' as int + d) as char
  }

  /** A number padded with zeros to at least `width` digits (`StrToTargetLength` of a non-negative number). */
  function Padded(n: nat, width: nat): (s: string)
    ensures s != [] && |s| >= width
    decreases n + width
  {
    if n < 10 && width <= 1 then [DigitChar(n)]
    else Padded(n / 10, if width > 0 then width - 1 else 0) + [DigitChar(n % 10)]
  }

  lemma {:induction false} PaddedFacts(n: nat, width: nat)
    ensures AllDigits(Padded(n, width)) && Decimal(Padded(n, width)) == n
    ensures width >= 1 && n < Pow10(width) ==> |Padded(n, width)| == width
    decreases n + width
  {
    var s := Padded(n, width);
    if n < 10 && width <= 1 {
      assert s[..0] == [];
    } else {
      var w := if width > 0 then width - 1 else 0;
      PaddedFacts(n / 10, w);
      assert s[..|s| - 1] == Padded(n / 10, w);
    }
  }

  // ---------------------------------------------------------------------------------------------
  // Tokens of concatenated texts

  lemma {:induction false} DecimalPrefix(ds: string, k: nat)
    requires AllDigits(ds) && k <= |ds|
    ensures Decimal(ds[..k]) <= Decimal(ds)
  {
    if k < |ds| {
      DecimalPrefix(ds[..|ds| - 1], k);
      assert ds[..|ds| - 1][..k] == ds[..k];
    } else {
      assert ds[..k] == ds;
    }
  }

  lemma {:induction false} SkipDigitsOver(ds: string, rest: string)
    requires AllDigits(ds) && !StartsDigit(rest)
    ensures SkipDigits(ds + rest) == rest
  {
    if ds == [] {
      assert ds + rest == rest;
    } else {
      SkipDigitsOver(ds[1..], rest);
      assert (ds + rest)[1..] == ds[1..] + rest;
    }
  }

  /** A number of few enough digits is read whole. */
  lemma CountWhole(ds: string, rest: string)
    requires AllDigits(ds) && !StartsDigit(rest) && Decimal(ds) <= MAX_DECIMAL
    ensures Count(ds + rest, 0) == (Decimal(ds), |ds|)
  {
    hide Count, Decimal;
    var s := ds + rest;
    DecimalEmpty();
    CountFacts(s, 0);
    CountIsDecimal([], s);
    var k := Count(s, 0).1;
    DigitsStop(ds, rest, k);
    assert [] + s[..k] == ds[..k];
    DecimalPrefix(ds, k);
    DigitsReach(ds, rest, k);
    assert ds[..|ds|] == ds;
  }

  lemma DigitsStop(ds: string, rest: string, k: nat)
    requires !StartsDigit(rest) && k <= |ds + rest| && forall i :: 0 <= i < k ==> IsDigit((ds + rest)[i])
    ensures k <= |ds|
  {
    if rest != [] {
      assert (ds + rest)[|ds|] == rest[0];
    }
  }

  lemma DigitsReach(ds: string, rest: string, k: nat)
    requires AllDigits(ds) && k <= |ds| && !StartsDigit((ds + rest)[k..])
    ensures k == |ds|
  {
    var s := ds + rest;
    assert forall i :: 0 <= i < |ds| ==> s[i] == ds[i];
    assert k < |s| ==> s[k..][0] == s[k];
  }

  lemma DecimalEmpty()
    ensures Decimal([]) == 0
  {
  }

  lemma LexNumber(n: nat, width: nat, rest: string)
    requires n <= MAX_DECIMAL && !StartsDigit(rest)
    ensures Lex(Padded(n, width) + rest) == [Number(n, |Padded(n, width)|)] + Lex(rest)
  {
    hide Padded, Count, SkipDigits, Lex, Decimal;
    var ds := Padded(n, width);
    PaddedFacts(n, width);
    CountWhole(ds, rest);
    SkipDigitsOver(ds, rest);
    assert (ds + rest)[0] == ds[0];
    LexStep(ds + rest);
  }

  predicate IsMark(c: char) {
    c == ':' || c == '+' || c == '-' || c == '.'
  }

  lemma LexMark(c: char, rest: string)
    requires IsMark(c)
    ensures Lex([c] + rest) == [Symbol(c)] + Lex(rest)
  {
    hide Lex;
    LexStep([c] + rest);
    assert ([c] + rest)[1..] == rest;
  }

  lemma LexSpace(rest: string)
    ensures Lex(" " + rest) == [Space] + Lex(rest)
  {
    hide Lex;
    LexStep(" " + rest);
    assert (" " + rest)[1..] == rest;
  }

  predicate AllAlpha(w: string) {
    forall i :: 0 <= i < |w| ==> IsAlpha(w[i])
  }

  lemma {:induction false} SkipAlphaOver(w: string, rest: string)
    requires AllAlpha(w) && !StartsAlpha(rest)
    ensures SkipAlpha(w + rest) == rest
  {
    if w == [] {
      assert w + rest == rest;
    } else {
      SkipAlphaOver(w[1..], rest);
      assert (w + rest)[1..] == w[1..] + rest;
    }
  }

  lemma {:induction false} LettersOver(w: string, rest: string, n: nat)
    requires AllAlpha(w) && !StartsAlpha(rest)
    ensures Letters(w + rest, n) == Letters(w, n)
  {
    if w == [] {
      assert w + rest == rest;
    } else if n > 0 {
      LettersOver(w[1..], rest, n - 1);
      assert (w + rest)[1..] == w[1..] + rest;
    }
  }

  lemma LexWord(w: string, rest: string)
    requires w != [] && AllAlpha(w) && !StartsAlpha(rest)
    ensures Lex(w + rest) == [KeyWord(Letters(w, 3))] + Lex(rest)
  {
    hide Lex, Letters, SkipAlpha, KeyWord;
    LexStep(w + rest);
    assert (w + rest)[0] == w[0];
    SkipAlphaOver(w, rest);
    LettersOver(w, rest, 3);
  }

  // ---------------------------------------------------------------------------------------------
  // The Date Time String Format

  datatype YearForm = FourDigits | SixDigits

  datatype ZoneForm = NoZone | Zulu | Offset(negative: bool, hour: nat, min: nat, colon: bool)

  datatype TimeForm =
    | NoTime
    | Minutes(h: nat, m: nat, zone: ZoneForm)
    | Seconds(h: nat, m: nat, s: nat, zone: ZoneForm)
    | Milliseconds(h: nat, m: nat, s: nat, ms: nat, zone: ZoneForm)

  datatype DateForm =
    | Year(y: int, form: YearForm, time: TimeForm)
    | YearMonth(y: int, form: YearForm, mon: nat, time: TimeForm)
    | YearMonthDay(y: int, form: YearForm, mon: nat, d: nat, time: TimeForm)

  predicate ZoneFormOk(z: ZoneForm) {
    z.Offset? ==> z.hour <= 24 && z.min <= 59
  }

  function ZoneText(z: ZoneForm): string {
    match z
    case NoZone => ""
    case Zulu => "Z"
    case Offset(neg, h, m, colon) =>
      [if neg then '-' else '+'] + (Padded(h, 2) + ((if colon then ":" else "") + (Padded(m, 2) + "")))
  }

  function ZoneTokens(z: ZoneForm): Tokens {
    match z
    case NoZone => []
    case Zulu => [ZoneWord(0)]
    case Offset(neg, h, m, colon) =>
      var sign := Symbol(if neg then '-' else '+');
      if colon then [sign, Number(h, 2), Symbol(':'), Number(m, 2)] else [sign, Number(h * 100 + m, 4)]
  }

  lemma TwoDigits(n: nat)
    requires n < 100
    ensures |Padded(n, 2)| == 2 && AllDigits(Padded(n, 2)) && IsDigit(Padded(n, 2)[0])
  {
    PaddedFacts(n, 2);
  }

  lemma PaddedStep(q: nat, r: nat, width: nat)
    requires r < 10 && width >= 1
    ensures Padded(10 * q + r, width + 1) == Padded(q, width) + [DigitChar(r)]
  {
    var n := 10 * q + r;
    assert n / 10 == q && n % 10 == r;
  }

  /** Two two-digit numbers side by side are one four-digit number. */
  lemma FourTogether(h: nat, m: nat)
    requires h < 100 && m < 100
    ensures Padded(h, 2) + Padded(m, 2) == Padded(h * 100 + m, 4)
  {
    hide Padded;
    var q, r := m / 10, m % 10;
    PaddedStep(h * 10 + q, r, 3);
    PaddedStep(h, q, 2);
    PaddedStep(q, r, 1);
    PaddedDigit(q);
    assert 10 * (h * 10 + q) + r == h * 100 + m;
    assert Padded(h, 2) + ([DigitChar(q)] + [DigitChar(r)]) == Padded(h, 2) + [DigitChar(q)] + [DigitChar(r)];
  }

  lemma PaddedDigit(d: nat)
    requires d < 10
    ensures Padded(d, 1) == [DigitChar(d)]
  {
  }

  lemma LexEmpty()
    ensures Lex("") == []
  {
  }

  lemma LexZone(z: ZoneForm)
    requires ZoneFormOk(z)
    ensures Lex(ZoneText(z)) == ZoneTokens(z)
    ensures !StartsDigit(ZoneText(z))
  {
    hide Lex, Padded;
    LexEmpty();
    match z {
      case NoZone =>
      case Zulu =>
        assert KeyWord(Letters("Z", 3)) == ZoneWord(0) by {
          assert Letters("Z", 3) == "z";
        }
        LexWord("Z", "");
        assert "Z" + "" == "Z";
      case Offset(neg, h, m, colon) =>
        var mark := if neg then '-' else '+';
        TwoDigits(h);
        TwoDigits(m);
        if colon {
          LexMark(mark, Padded(h, 2) + (":" + (Padded(m, 2) + "")));
          LexNumber(h, 2, ":" + (Padded(m, 2) + ""));
          LexMark(':', Padded(m, 2) + "");
          LexNumber(m, 2, "");
        } else {
          FourTogether(h, m);
          FourDigitNumber(h * 100 + m);
          LexMark(mark, Padded(h * 100 + m, 4) + "");
          LexNumber(h * 100 + m, 4, "");
          assert Padded(h, 2) + ("" + (Padded(m, 2) + "")) == Padded(h * 100 + m, 4) + "";
        }
    }
  }

  lemma FourDigitNumber(n: nat)
    requires n <= 9999
    ensures |Padded(n, 4)| == 4 && IsDigit(Padded(n, 4)[0])
  {
    PaddedFacts(n, 4);
  }

  function TimeText(t: TimeForm): string {
    match t
    case NoTime => ""
    case Minutes(h, m, z) => ClockText(h, m, ZoneText(z))
    case Seconds(h, m, s, z) => ClockText(h, m, ":" + (Padded(s, 2) + ZoneText(z)))
    case Milliseconds(h, m, s, ms, z) => ClockText(h, m, ":" + (Padded(s, 2) + ("." + (Padded(ms, 3) + ZoneText(z)))))
  }

  function ClockText(h: nat, m: nat, rest: string): string {
    "T" + (Padded(h, 2) + (":" + (Padded(m, 2) + rest)))
  }

  function ClockTokens(h: nat, m: nat, rest: Tokens): Tokens {
    [TimeFlag] + ([Number(h, 2)] + ([Symbol(':')] + ([Number(m, 2)] + rest)))
  }

  function TimeTokens(t: TimeForm): Tokens {
    match t
    case NoTime => []
    case Minutes(h, m, z) => ClockTokens(h, m, ZoneTokens(z))
    case Seconds(h, m, s, z) => ClockTokens(h, m, [Symbol(':')] + ([Number(s, 2)] + ZoneTokens(z)))
    case Milliseconds(h, m, s, ms, z) =>
      ClockTokens(h, m, [Symbol(':')] + ([Number(s, 2)] + ([Symbol('.')] + ([Number(ms, 3)] + ZoneTokens(z)))))
  }

  /** Valid times: hour 24 only as midnight. */
  predicate TimeFormOk(t: TimeForm) {
    match t
    case NoTime => true
    case Minutes(h, m, z) => ZoneFormOk(z) && TimeIsValid([h, m])
    case Seconds(h, m, s, z) => ZoneFormOk(z) && TimeIsValid([h, m, s])
    case Milliseconds(h, m, s, ms, z) => ZoneFormOk(z) && TimeIsValid([h, m, s, ms])
  }

  lemma LexClock(h: nat, m: nat, rest: string)
    requires h < 100 && m < 100 && !StartsDigit(rest)
    ensures Lex(ClockText(h, m, rest)) == ClockTokens(h, m, Lex(rest))
  {
    hide Lex, Padded;
    TwoDigits(h);
    TwoDigits(m);
    var minutes := Padded(m, 2) + rest;
    var colon := ":" + minutes;
    LexNumber(m, 2, rest);
    LexMark(':', minutes);
    LexNumber(h, 2, colon);
    assert KeyWord(Letters("T", 3)) == TimeFlag by {
      assert Letters("T", 3) == "t";
    }
    assert (Padded(h, 2) + colon)[0] == Padded(h, 2)[0];
    LexWord("T", Padded(h, 2) + colon);
  }

  lemma LexTime(t: TimeForm)
    requires TimeFormOk(t)
    ensures Lex(TimeText(t)) == TimeTokens(t)
    ensures !StartsDigit(TimeText(t))
  {
    hide Lex, Padded, ZoneText, ZoneTokens, ZoneFormOk, ClockTokens;
    LexEmpty();
    match t {
      case NoTime =>
      case Minutes(h, m, z) =>
        LexZone(z);
        LexClock(h, m, ZoneText(z));
      case Seconds(h, m, s, z) =>
        LexZone(z);
        TwoDigits(s);
        LexNumber(s, 2, ZoneText(z));
        LexMark(':', Padded(s, 2) + ZoneText(z));
        LexClock(h, m, ":" + (Padded(s, 2) + ZoneText(z)));
      case Milliseconds(h, m, s, ms, z) =>
        LexZone(z);
        TwoDigits(s);
        ThreeDigits(ms);
        LexNumber(ms, 3, ZoneText(z));
        LexMark('.', Padded(ms, 3) + ZoneText(z));
        var fraction := "." + (Padded(ms, 3) + ZoneText(z));
        LexNumber(s, 2, fraction);
        LexMark(':', Padded(s, 2) + fraction);
        LexClock(h, m, ":" + (Padded(s, 2) + fraction));
    }
  }

  lemma ThreeDigits(n: nat)
    requires n <= 999
    ensures |Padded(n, 3)| == 3
  {
    PaddedFacts(n, 3);
  }

  function YearText(y: int, form: YearForm, rest: string): string {
    if form == FourDigits && y >= 0 then Padded(y, 4) + rest
    else [if y < 0 then '-' else '+'] + (Padded(if y < 0 then -y else y, 6) + rest)
  }

  function YearTokens(y: int, form: YearForm, rest: Tokens): Tokens {
    if form == FourDigits && y >= 0 then [Number(y, 4)] + rest
    else [Symbol(if y < 0 then '-' else '+')] + ([Number(if y < 0 then -y else y, 6)] + rest)
  }

  function FormText(f: DateForm): string {
    match f
    case Year(y, form, t) => YearText(y, form, TimeText(t))
    case YearMonth(y, form, mon, t) => YearText(y, form, "-" + (Padded(mon, 2) + TimeText(t)))
    case YearMonthDay(y, form, mon, d, t) =>
      YearText(y, form, "-" + (Padded(mon, 2) + ("-" + (Padded(d, 2) + TimeText(t)))))
  }

  function FormTokens(f: DateForm): Tokens {
    match f
    case Year(y, form, t) => YearTokens(y, form, TimeTokens(t))
    case YearMonth(y, form, mon, t) => YearTokens(y, form, [Symbol('-')] + ([Number(mon, 2)] + TimeTokens(t)))
    case YearMonthDay(y, form, mon, d, t) =>
      YearTokens(y, form, [Symbol('-')] + ([Number(mon, 2)] + ([Symbol('-')] + ([Number(d, 2)] + TimeTokens(t)))))
  }

  /** A four-digit year is 0 to 9999; a six-digit year has a sign, and no minus before zero. */
  predicate DateFormOk(f: DateForm) {
    && (if f.form == FourDigits then 0 <= f.y <= 9999 else -999999 <= f.y <= 999999)
    && TimeFormOk(f.time)
    && (f.YearMonth? ==> 1 <= f.mon <= 12)
    && (f.YearMonthDay? ==> 1 <= f.mon <= 12 && 1 <= f.d <= 31)
  }

  lemma LexYear(y: int, form: YearForm, rest: string)
    requires if form == FourDigits then 0 <= y <= 9999 else -999999 <= y <= 999999
    requires !StartsDigit(rest)
    ensures Lex(YearText(y, form, rest)) == YearTokens(y, form, Lex(rest))
  {
    hide Lex, Padded;
    var n := if y < 0 then -y else y;
    if form == FourDigits {
      FourDigitNumber(n);
      LexNumber(n, 4, rest);
    } else {
      SixDigitNumber(n);
      LexNumber(n, 6, rest);
      LexMark(if y < 0 then '-' else '+', Padded(n, 6) + rest);
    }
  }

  lemma SixDigitNumber(n: nat)
    requires n <= 999999
    ensures |Padded(n, 6)| == 6
  {
    PaddedFacts(n, 6);
    assert Pow10(6) == 1000000;
  }

  lemma LexDate(f: DateForm)
    requires DateFormOk(f)
    ensures Lex(FormText(f)) == FormTokens(f)
  {
    hide Lex, Padded, TimeText, TimeTokens, YearText, YearTokens, TimeFormOk;
    LexTime(f.time);
    var time := TimeText(f.time);
    match f {
      case Year(y, form, t) => LexYear(y, form, time);
      case YearMonth(y, form, mon, t) =>
        TwoDigits(mon);
        LexNumber(mon, 2, time);
        LexMark('-', Padded(mon, 2) + time);
        LexYear(y, form, "-" + (Padded(mon, 2) + time));
      case YearMonthDay(y, form, mon, d, t) =>
        TwoDigits(mon);
        TwoDigits(d);
        LexNumber(d, 2, time);
        LexMark('-', Padded(d, 2) + time);
        var day := "-" + (Padded(d, 2) + time);
        LexNumber(mon, 2, day);
        LexMark('-', Padded(mon, 2) + day);
        LexYear(y, form, "-" + (Padded(mon, 2) + day));
    }
  }

  // What the forms mean

  function ZoneOf(z: ZoneForm): int {
    match z
    case NoZone => INT_MAX
    case Zulu => 0
    case Offset(neg, h, m, _) => if neg then -(h * 3600 + m * 60) else h * 3600 + m * 60
  }

  function FieldsOf(f: DateForm): Fields {
    var date := Fields(f.y, if f.Year? then 0 else f.mon - 1, if f.YearMonthDay? then f.d else 1, 0, 0, 0, 0, 0);
    match f.time
    case NoTime => date
    case Minutes(h, m, z) => date.(hour := h, min := m, zone := ZoneOf(z))
    case Seconds(h, m, s, z) => date.(hour := h, min := m, sec := s, zone := ZoneOf(z))
    case Milliseconds(h, m, s, ms, z) => date.(hour := h, min := m, sec := s, ms := ms, zone := ZoneOf(z))
  }

  function ZoneParsed(z: ZoneForm): Zone {
    match z
    case NoZone => LOCAL
    case Zulu => UTC
    case Offset(neg, h, m, _) => Zone(if neg then -1 else 1, h, m)
  }

  lemma First(t: DateUnit, rest: Tokens)
    ensures Head([t] + rest) == t && Tail([t] + rest) == rest
  {
  }

  lemma ParseZone(z: ZoneForm, time: seq<int>)
    requires ZoneFormOk(z)
    ensures IsoZone(ZoneTokens(z), time) == Accept((time, ZoneParsed(z)))
    ensures Head(ZoneTokens(z)) != Symbol(':') && Head(ZoneTokens(z)) != Symbol('.')
    ensures ZoneSeconds(ZoneParsed(z)) == Some(ZoneOf(z))
  {
  }

  function TimeParsed(t: TimeForm): seq<int> {
    match t
    case NoTime => []
    case Minutes(h, m, _) => [h, m]
    case Seconds(h, m, s, _) => [h, m, s]
    case Milliseconds(h, m, s, ms, _) => [h, m, s, ms]
  }

  lemma ParseClock(h: nat, m: nat, rest: Tokens)
    ensures IsoTime(ClockTokens(h, m, rest)) == IsoSeconds(rest, [h, m])
    ensures Head(ClockTokens(h, m, rest)) == TimeFlag
  {
    hide IsoSeconds;
    var minutes := [Number(m, 2)] + rest;
    First(Number(m, 2), rest);
    First(Symbol(':'), minutes);
    First(Number(h, 2), [Symbol(':')] + minutes);
    First(TimeFlag, [Number(h, 2)] + ([Symbol(':')] + minutes));
  }

  lemma ParseTime(t: TimeForm)
    requires TimeFormOk(t)
    ensures IsoTime(TimeTokens(t)) == Accept((TimeParsed(t), if t.NoTime? then UTC else ZoneParsed(t.zone)))
    ensures Head(TimeTokens(t)).TimeFlag? || Head(TimeTokens(t)).StringEnd?
  {
    hide IsoZone, ZoneTokens, ZoneParsed, ZoneFormOk, TimeIsValid, ClockTokens, IsoTime;
    match t {
      case NoTime => TimeOfNothing();
      case Minutes(h, m, z) =>
        ParseZone(z, [h, m]);
        ParseClock(h, m, ZoneTokens(z));
      case Seconds(h, m, s, z) =>
        ParseZone(z, [h, m] + [s]);
        First(Number(s, 2), ZoneTokens(z));
        First(Symbol(':'), [Number(s, 2)] + ZoneTokens(z));
        ParseClock(h, m, [Symbol(':')] + ([Number(s, 2)] + ZoneTokens(z)));
        assert [h, m] + [s] == [h, m, s];
      case Milliseconds(h, m, s, ms, z) =>
        ParseZone(z, [h, m] + [s] + [ms]);
        First(Number(ms, 3), ZoneTokens(z));
        var fraction := [Symbol('.')] + ([Number(ms, 3)] + ZoneTokens(z));
        First(Symbol('.'), [Number(ms, 3)] + ZoneTokens(z));
        First(Number(s, 2), fraction);
        First(Symbol(':'), [Number(s, 2)] + fraction);
        ParseClock(h, m, [Symbol(':')] + ([Number(s, 2)] + fraction));
        assert [h, m] + [s] + [ms] == [h, m, s, ms];
    }
  }

  lemma TimeOfNothing()
    ensures IsoTime([]) == Accept(([], UTC))
  {
  }

  lemma ParseYear(y: int, form: YearForm, rest: Tokens)
    requires if form == FourDigits then 0 <= y <= 9999 else -999999 <= y <= 999999
    ensures IsoDate(YearTokens(y, form, rest)) == IsoMonth(rest, [y])
  {
    hide IsoMonth;
    if form == FourDigits {
      First(Number(y, 4), rest);
    } else {
      var n := if y < 0 then -y else y;
      First(Number(n, 6), rest);
      First(Symbol(if y < 0 then '-' else '+'), [Number(n, 6)] + rest);
    }
  }

  function DateParsed(f: DateForm): seq<int> {
    match f
    case Year(y, _, _) => [y]
    case YearMonth(y, _, mon, _) => [y, mon]
    case YearMonthDay(y, _, mon, d, _) => [y, mon, d]
  }

  lemma ParseMonth(mon: nat, rest: Tokens, data: seq<int>)
    requires |data| == 1
    ensures IsoMonth([Symbol('-')] + ([Number(mon, 2)] + rest), data) == IsoDay(rest, data + [mon])
  {
    hide IsoDay;
    First(Number(mon, 2), rest);
    First(Symbol('-'), [Number(mon, 2)] + rest);
  }

  lemma ParseDay(d: nat, rest: Tokens, data: seq<int>)
    ensures IsoDay([Symbol('-')] + ([Number(d, 2)] + rest), data) == IsoEnd(rest, data + [d])
  {
    hide IsoEnd;
    First(Number(d, 2), rest);
    First(Symbol('-'), [Number(d, 2)] + rest);
  }

  /** A time, or nothing, ends the date. */
  lemma TimeEndsDate(t: TimeForm, y: int, data: seq<int>)
    requires TimeFormOk(t)
    ensures IsoMonth(TimeTokens(t), [y]) == (true, TimeTokens(t), [y])
    ensures IsoDay(TimeTokens(t), data) == IsoEnd(TimeTokens(t), data) == (true, TimeTokens(t), data)
  {
    hide TimeTokens, IsoTime, TimeFormOk;
    ParseTime(t);
  }

  lemma ParseDate(f: DateForm)
    requires DateFormOk(f)
    ensures IsoDate(FormTokens(f)) == (true, TimeTokens(f.time), DateParsed(f))
  {
    hide TimeTokens, YearTokens, IsoDate, TimeFormOk, IsoMonth, IsoDay, IsoEnd;
    var time, y := TimeTokens(f.time), f.y;
    match f {
      case Year(_, form, t) =>
        ParseYear(y, form, time);
        TimeEndsDate(t, y, []);
      case YearMonth(_, form, mon, t) =>
        ParseYear(y, form, [Symbol('-')] + ([Number(mon, 2)] + time));
        ParseMonth(mon, time, [y]);
        TimeEndsDate(t, y, [y] + [mon]);
        assert [y] + [mon] == [y, mon];
      case YearMonthDay(_, form, mon, d, t) =>
        var day := [Symbol('-')] + ([Number(d, 2)] + time);
        ParseYear(y, form, [Symbol('-')] + ([Number(mon, 2)] + day));
        ParseMonth(mon, day, [y]);
        ParseDay(d, time, [y] + [mon]);
        TimeEndsDate(t, y, [y] + [mon] + [d]);
        assert [y] + [mon] + [d] == [y, mon, d];
    }
  }

  /** Printing a date in any form of the Date Time String Format and parsing it gives the same fields back: zone 0
      for Z and for a date alone, INT_MAX for a time without a zone. */
  lemma IsoRoundTrip(f: DateForm)
    requires DateFormOk(f)
    ensures ParseText(FormText(f)) == Accept(FieldsOf(f))
  {
    hide FormText, FormTokens, Lex, IsoDate, IsoTime, TimeTokens, AllFields, DateFormOk, TimeParsed, DateParsed,
         FieldsOf, ZoneParsed, TimeFormOk;
    LexDate(f);
    ParseDate(f);
    TimeOfForm(f);
    ParseTime(f.time);
    FieldsParsed(f);
  }

  lemma TimeOfForm(f: DateForm)
    requires DateFormOk(f)
    ensures TimeFormOk(f.time)
  {
  }

  lemma DayParsed(f: DateForm)
    requires DateFormOk(f)
    ensures DayFields(DateParsed(f), INT_MAX, true)
         == Some((FieldsOf(f).year, FieldsOf(f).month, FieldsOf(f).day))
  {
    hide TimeFormOk;
  }

  lemma ClockParsed(f: DateForm)
    requires TimeFormOk(f.time)
    ensures TimeIsValid(TimeParsed(f.time))
    ensures TimeAt(TimeParsed(f.time), 0) == FieldsOf(f).hour && TimeAt(TimeParsed(f.time), 1) == FieldsOf(f).min
    ensures TimeAt(TimeParsed(f.time), 2) == FieldsOf(f).sec && TimeAt(TimeParsed(f.time), 3) == FieldsOf(f).ms
    ensures FieldsOf(f).zone == if f.time.NoTime? then 0 else ZoneOf(f.time.zone)
  {
    hide ZoneOf, ZoneFormOk;
  }

  lemma FieldsParsed(f: DateForm)
    requires DateFormOk(f)
    ensures AllFields(DateParsed(f), INT_MAX, true, TimeParsed(f.time),
                      if f.time.NoTime? then UTC else ZoneParsed(f.time.zone)) == Accept(FieldsOf(f))
  {
    hide ZoneSeconds, ZoneParsed, ZoneOf, ZoneFormOk, DateParsed, TimeParsed, FieldsOf, DayFields, TimeIsValid, TimeAt;
    DayParsed(f);
    ClockParsed(f);
    UtcSeconds();
    if !f.time.NoTime? {
      ParseZone(f.time.zone, []);
    }
  }

  lemma UtcSeconds()
    ensures ZoneSeconds(UTC) == Some(0)
  {
  }

  // ---------------------------------------------------------------------------------------------
  // The texts of toString and toUTCString

  const WEEK_DAY_NAME: seq<string> := ["Sun", "Mon", "Tue", "Wed", "Thu", "Fri", "Sat"]
  const MONTH_TEXT: seq<string> :=
    ["Jan", "Feb", "Mar", "Apr", "May", "Jun", "Jul", "Aug", "Sep", "Oct", "Nov", "Dec"]

  /** The fields of a date in local or universal time; the zone is in minutes. */
  datatype Moment = Moment(year: int, month: nat, day: nat, weekday: nat, hour: nat, min: nat, sec: nat, ms: nat, offset: int)

  predicate MomentOk(m: Moment) {
    && -MAX_DECIMAL <= m.year <= MAX_DECIMAL && m.month <= 11 && 1 <= m.day <= 31 && m.weekday <= 6
    && m.hour <= 23 && m.min <= 59 && m.sec <= 59 && m.ms <= 999 && -1499 <= m.offset <= 1499
  }

  /** A year of at least four digits, after a minus sign if it is negative. */
  function SignedYear(y: int, rest: string): string {
    (if y < 0 then "-" else "") + (Padded(Abs(y), 4) + rest)
  }

  /** The year and the time of day, and then the zone. */
  function YearAndTime(m: Moment, zone: string): string {
    SignedYear(m.year, " " + (Padded(m.hour, 2) + (":" + (Padded(m.min, 2) + (":" + (Padded(m.sec, 2) + (" " + zone)))))))
  }

  /** `JSDate::ToString`. */
  function ToString(m: Moment): string
    requires MomentOk(m)
  {
    var minutes := Abs(m.offset);
    WEEK_DAY_NAME[m.weekday] + (" " + (MONTH_TEXT[m.month] + (" " + (Padded(m.day, 2) + (" " + YearAndTime(m,
      "GMT" + ([if m.offset >= 0 then '+' else '-'] + (Padded(minutes / 60, 2) + (Padded(minutes % 60, 2) + "")))))))))
  }

  /** `JSDate::ToUTCString`. */
  function ToUTCString(m: Moment): string
    requires MomentOk(m)
  {
    WEEK_DAY_NAME[m.weekday] + ("," + (" " + (Padded(m.day, 2) + (" " + (MONTH_TEXT[m.month] + (" " +
      YearAndTime(m, "GMT" + "")))))))
  }

  lemma ThreeLetters(a: char, b: char, c: char)
    requires IsAlpha(a) && IsAlpha(b) && IsAlpha(c)
    ensures Letters([a, b, c], 3) == [GetLower(a), GetLower(b), GetLower(c)]
  {
    assert [a, b, c][1..] == [b, c] && [b, c][1..] == [c] && [c][1..] == [];
    assert Letters([c], 1) == [GetLower(c)];
    assert Letters([b, c], 2) == [GetLower(b), GetLower(c)];
  }

  lemma WeekdayWord(i: nat)
    requires i <= 6
    ensures WEEK_DAY_NAME[i] != [] && AllAlpha(WEEK_DAY_NAME[i]) && KeyWord(Letters(WEEK_DAY_NAME[i], 3)) == InvalidWord
  {
    hide Letters;
    var w := WEEK_DAY_NAME[i];
    ThreeLetters(w[0], w[1], w[2]);
    assert w == [w[0], w[1], w[2]];
  }

  lemma MonthWord(i: nat)
    requires i <= 11
    ensures MONTH_TEXT[i] != [] && AllAlpha(MONTH_TEXT[i]) && KeyWord(Letters(MONTH_TEXT[i], 3)) == Month(i + 1)
  {
    hide Letters;
    var w := MONTH_TEXT[i];
    ThreeLetters(w[0], w[1], w[2]);
    assert w == [w[0], w[1], w[2]];
  }

  lemma ZoneWordGMT()
    ensures AllAlpha("GMT") && KeyWord(Letters("GMT", 3)) == ZoneWord(1)
  {
    hide Letters;
    ThreeLetters('G', 'M', 'T');
    assert "GMT" == ['G', 'M', 'T'];
  }

  lemma LexComma(rest: string)
    ensures Lex("," + rest) == [Unknown] + Lex(rest)
  {
    hide Lex;
    LexStep("," + rest);
    assert ("," + rest)[1..] == rest;
  }

  function SignedYearTokens(y: int, rest: Tokens): Tokens {
    var number := [Number(Abs(y), |Padded(Abs(y), 4)|)] + rest;
    if y < 0 then [Symbol('-')] + number else number
  }

  function ClockOf(m: Moment, rest: Tokens): Tokens {
    [Number(m.hour, 2)] + ([Symbol(':')] + ([Number(m.min, 2)] + ([Symbol(':')] + ([Number(m.sec, 2)] + rest))))
  }

  function YearAndTimeTokens(m: Moment, zone: Tokens): Tokens {
    SignedYearTokens(m.year, [Space] + ClockOf(m, [Space] + zone))
  }

  lemma LexYearAndTime(m: Moment, zone: string)
    requires MomentOk(m)
    ensures Lex(YearAndTime(m, zone)) == YearAndTimeTokens(m, Lex(zone))
  {
    hide Lex, Padded;
    TwoDigits(m.hour);
    TwoDigits(m.min);
    TwoDigits(m.sec);
    var space := " " + zone;
    LexSpace(zone);
    LexNumber(m.sec, 2, space);
    var sec := Padded(m.sec, 2) + space;
    LexMark(':', sec);
    LexNumber(m.min, 2, ":" + sec);
    var min := Padded(m.min, 2) + (":" + sec);
    LexMark(':', min);
    LexNumber(m.hour, 2, ":" + min);
    var clock := Padded(m.hour, 2) + (":" + min);
    LexSpace(clock);
    LexNumber(Abs(m.year), 4, " " + clock);
    var number := Padded(Abs(m.year), 4) + (" " + clock);
    if m.year < 0 {
      LexMark('-', number);
    } else {
      assert "" + number == number;
    }
  }

  // ---------------------------------------------------------------------------------------------
  // The legacy path on those tokens

  lemma Take(t: DateUnit, rest: Tokens, st: Legacy)
    requires LegacyStep(t, rest, st).Accept?
    ensures var (left, next) := LegacyStep(t, rest, st).value;
            LegacyDates([t] + rest, st) == LegacyDates(left, next)
  {
    hide LegacyStep, LegacyDates;
    LegacyUnfold([t] + rest, st);
    assert ([t] + rest)[1..] == rest;
  }

  lemma TakeSpace(rest: Tokens, st: Legacy)
    ensures LegacyDates([Space] + rest, st) == LegacyDates(rest, st)
  {
    hide LegacyDates;
    Take(Space, rest, st);
  }

  /** A number before a space, and no time yet: a part of the date. */
  lemma TakePart(n: int, len: nat, rest: Tokens, st: Legacy)
    requires |st.day| < 3 && st.time == []
    ensures LegacyDates([Number(n, len)] + ([Space] + rest), st)
         == LegacyDates(rest, st.(day := st.day + [n], hasNumber := true))
  {
    hide LegacyDates;
    First(Space, rest);
    Take(Number(n, len), [Space] + rest, st);
    TakeSpace(rest, st.(day := st.day + [n], hasNumber := true));
  }

  /** A number before a colon and another number: a part of the time. */
  lemma TakeClockPart(n: int, len: nat, next: DateUnit, rest: Tokens, st: Legacy)
    requires |st.time| < 4 && next.Number?
    ensures LegacyDates([Number(n, len)] + ([Symbol(':')] + ([next] + rest)), st)
         == LegacyDates([next] + rest, st.(time := st.time + [n], hasNumber := true))
  {
    hide LegacyDates;
    First(next, rest);
    First(Symbol(':'), [next] + rest);
    Take(Number(n, len), [Symbol(':')] + ([next] + rest), st);
  }

  /** The seconds before a space end the time. */
  lemma TakeSeconds(n: int, len: nat, rest: Tokens, st: Legacy)
    requires |st.time| == 2 && 0 <= n <= 59
    ensures LegacyDates([Number(n, len)] + ([Space] + rest), st)
         == LegacyDates(rest, st.(time := st.time + [n], hasNumber := true))
  {
    hide LegacyDates;
    First(Space, rest);
    Take(Number(n, len), [Space] + rest, st);
    TakeSpace(rest, st.(time := st.time + [n], hasNumber := true));
  }

  lemma TakeClock(m: Moment, rest: Tokens, st: Legacy)
    requires MomentOk(m) && st.time == []
    ensures LegacyDates(ClockOf(m, [Space] + rest), st)
         == LegacyDates(rest, st.(time := [m.hour, m.min, m.sec], hasNumber := true))
  {
    hide LegacyDates;
    var sec := [Number(m.sec, 2)] + ([Space] + rest);
    TakeClockPart(m.hour, 2, Number(m.min, 2), [Symbol(':')] + sec, st);
    var one := st.(time := st.time + [m.hour], hasNumber := true);
    TakeClockPart(m.min, 2, Number(m.sec, 2), [Space] + rest, one);
    var two := one.(time := one.time + [m.min]);
    TakeSeconds(m.sec, 2, rest, two);
    assert two.time + [m.sec] == [m.hour, m.min, m.sec];
  }

  /** A minus sign before the year is skipped. */
  lemma TakeYearAndTime(m: Moment, zone: Tokens, st: Legacy)
    requires MomentOk(m) && st.time == [] && |st.day| < 3 && st.zone == LOCAL
    ensures LegacyDates(YearAndTimeTokens(m, zone), st)
         == LegacyDates(zone, st.(day := st.day + [Abs(m.year)], time := [m.hour, m.min, m.sec], hasNumber := true))
  {
    hide LegacyDates, Padded, ClockOf;
    var y, len := Abs(m.year), |Padded(Abs(m.year), 4)|;
    var clock := ClockOf(m, [Space] + zone);
    if m.year < 0 {
      Take(Symbol('-'), [Number(y, len)] + ([Space] + clock), st);
    }
    TakePart(y, len, clock, st);
    TakeClock(m, zone, st.(day := st.day + [y], hasNumber := true));
  }

  // ---------------------------------------------------------------------------------------------
  // Round trips of toString and toUTCString

  /** The fields that a printed moment should give back; milliseconds are not printed. */
  function Printed(m: Moment, offset: int): Fields {
    Fields(m.year, m.month, m.day, m.hour, m.min, m.sec, 0, offset * 60)
  }

  /** A text that starts with a word is left to the legacy path. */
  lemma WordIsLegacy(ts: Tokens)
    requires ts != [] && ts[0] == InvalidWord
    ensures ParseTokens(ts) == match LegacyDates(ts, Legacy([], INT_MAX, [], LOCAL, false))
                               case Reject => Reject
                               case Undefined => Undefined
                               case Accept(st) => AllFields(st.day, st.month, false, st.time, st.zone)
  {
    hide LegacyDates, AllFields;
  }

  /** The legacy path ends with these numbers, so the fields are right but for the century of a small year and the
      sign of the year. */
  lemma FieldsOfLegacy(m: Moment, zone: Zone, offset: int)
    requires MomentOk(m) && ZoneSeconds(zone) == Some(offset * 60)
    ensures AllFields([m.day, Abs(m.year)], m.month + 1, false, [m.hour, m.min, m.sec], zone)
         == Accept(Printed(m, offset).(year := FullYear(Abs(m.year))))
    ensures FullYear(Abs(m.year)) == m.year <==> m.year >= 100
  {
    hide ZoneSeconds;
    assert DayFields([m.day, Abs(m.year)], m.month + 1, false) == Some((FullYear(Abs(m.year)), m.month as int, m.day as int));
  }

  function OffsetTokens(m: Moment): Tokens {
    [ZoneWord(1)] + ([Symbol(if m.offset >= 0 then '+' else '-')] +
      [Number(Abs(m.offset) / 60 * 100 + Abs(m.offset) % 60, 4)])
  }

  function OffsetText(m: Moment): string {
    var minutes := Abs(m.offset);
    "GMT" + ([if m.offset >= 0 then '+' else '-'] + (Padded(minutes / 60, 2) + (Padded(minutes % 60, 2) + "")))
  }

  lemma LexOffset(m: Moment)
    requires MomentOk(m)
    ensures Lex(OffsetText(m)) == OffsetTokens(m)
  {
    hide Lex, Padded;
    var h, mm := Abs(m.offset) / 60, Abs(m.offset) % 60;
    var mark := if m.offset >= 0 then '+' else '-';
    ZoneWordGMT();
    LexEmpty();
    FourTogether(h, mm);
    FourDigitNumber(h * 100 + mm);
    LexNumber(h * 100 + mm, 4, "");
    LexMark(mark, Padded(h * 100 + mm, 4) + "");
    assert Padded(h, 2) + (Padded(mm, 2) + "") == Padded(h * 100 + mm, 4) + "";
    LexWord("GMT", [mark] + (Padded(h * 100 + mm, 4) + ""));
  }

  function OffsetZone(m: Moment): Zone {
    Zone(if m.offset >= 0 then 1 else -1, Abs(m.offset) / 60, Abs(m.offset) % 60)
  }

  lemma OffsetSeconds(m: Moment)
    requires MomentOk(m)
    ensures ZoneSeconds(OffsetZone(m)) == Some(m.offset * 60)
  {
    var minutes := Abs(m.offset);
    var h, mm := minutes / 60, minutes % 60;
    assert minutes == 60 * h + mm;
    assert h * 3600 + mm * 60 == minutes * 60;
  }

  /** Four digits after a sign are hours and minutes. */
  lemma TakeFourDigits(sign: DateUnit, h: nat, mm: nat, st: Legacy)
    requires sign.IsSign() && mm < 100 && st.time != []
    ensures LegacyDates([sign] + [Number(h * 100 + mm, 4)], st) == Accept(st.(zone := Zone(SignOf(sign), h, mm)))
  {
    hide LegacyDates;
    var n := h * 100 + mm;
    assert n / 100 == h && n % 100 == mm;
    assert [Number(n, 4)] + [] == [Number(n, 4)];
    First(Number(n, 4), []);
    Take(sign, [Number(n, 4)], st);
    LegacyUnfold([], st.(zone := Zone(SignOf(sign), h, mm)));
  }

  lemma TakeOffset(m: Moment, st: Legacy)
    requires MomentOk(m) && st.time != [] && st.hasNumber
    ensures LegacyDates(OffsetTokens(m), st) == Accept(st.(zone := OffsetZone(m)))
  {
    hide LegacyDates, Abs;
    var h, mm := Abs(m.offset) / 60, Abs(m.offset) % 60;
    var sign := Symbol(if m.offset >= 0 then '+' else '-');
    Take(ZoneWord(1), [sign] + [Number(h * 100 + mm, 4)], st);
    TakeFourDigits(sign, h, mm, st.(zone := UTC));
  }

  function StringTokens(m: Moment): Tokens {
    [InvalidWord] + ([Space] + ([Month(m.month + 1)] + ([Space] + ([Number(m.day, 2)] + ([Space] +
      YearAndTimeTokens(m, OffsetTokens(m)))))))
  }

  lemma LexToString(m: Moment)
    requires MomentOk(m)
    ensures Lex(ToString(m)) == StringTokens(m)
  {
    hide Lex, Padded, YearAndTime, YearAndTimeTokens, OffsetTokens, KeyWord, Letters;
    LexOffset(m);
    var rest := YearAndTime(m, OffsetText(m));
    LexYearAndTime(m, OffsetText(m));
    LexSpace(rest);
    TwoDigits(m.day);
    LexNumber(m.day, 2, " " + rest);
    var day := Padded(m.day, 2) + (" " + rest);
    LexSpace(day);
    MonthWord(m.month);
    LexWord(MONTH_TEXT[m.month], " " + day);
    var month := MONTH_TEXT[m.month] + (" " + day);
    LexSpace(month);
    WeekdayWord(m.weekday);
    LexWord(WEEK_DAY_NAME[m.weekday], " " + month);
  }

  lemma TakeString(m: Moment)
    requires MomentOk(m)
    ensures ParseTokens(StringTokens(m)) == Accept(Printed(m, m.offset).(year := FullYear(Abs(m.year))))
  {
    hide LegacyDates, ParseTokens, AllFields, YearAndTimeTokens, OffsetTokens, FullYear, ZoneSeconds, OffsetZone;
    var start := Legacy([], INT_MAX, [], LOCAL, false);
    var rest := YearAndTimeTokens(m, OffsetTokens(m));
    var day := [Number(m.day, 2)] + ([Space] + rest);
    var month := [Month(m.month + 1)] + ([Space] + day);
    First(Space, month);
    Take(InvalidWord, [Space] + month, start);
    TakeSpace(month, start);
    Take(Month(m.month + 1), [Space] + day, start);
    var one := start.(month := m.month + 1);
    TakeSpace(day, one);
    TakePart(m.day, 2, rest, one);
    var two := one.(day := one.day + [m.day as int], hasNumber := true);
    TakeYearAndTime(m, OffsetTokens(m), two);
    var three := two.(day := two.day + [Abs(m.year) as int], time := [m.hour, m.min, m.sec]);
    TakeOffset(m, three);
    WordIsLegacy(StringTokens(m));
    assert three.day == [m.day, Abs(m.year)];
    OffsetSeconds(m);
    FieldsOfLegacy(m, OffsetZone(m), m.offset);
  }

  /** Parsing what `toString` prints gives the same fields exactly from year 100 on: the sign of a negative year is
      dropped, and years 0 to 99 are taken as 1950 to 2049. */
  lemma ToStringRoundTrip(m: Moment)
    requires MomentOk(m)
    ensures ParseText(ToString(m)) == Accept(Printed(m, m.offset).(year := FullYear(Abs(m.year))))
    ensures ParseText(ToString(m)) == Accept(Printed(m, m.offset)) <==> m.year >= 100
  {
    hide Lex, ParseTokens, ToString, StringTokens;
    LexToString(m);
    TakeString(m);
  }

  function UTCStringTokens(m: Moment): Tokens {
    [InvalidWord] + ([Unknown] + ([Space] + ([Number(m.day, 2)] + ([Space] + ([Month(m.month + 1)] + ([Space] +
      YearAndTimeTokens(m, [ZoneWord(1)])))))))
  }

  lemma LexToUTCString(m: Moment)
    requires MomentOk(m)
    ensures Lex(ToUTCString(m)) == UTCStringTokens(m)
  {
    hide Lex, Padded, YearAndTime, YearAndTimeTokens, KeyWord, Letters;
    ZoneWordGMT();
    LexEmpty();
    LexWord("GMT", "");
    assert [ZoneWord(1)] + Lex("") == [ZoneWord(1)];
    var rest := YearAndTime(m, "GMT" + "");
    LexYearAndTime(m, "GMT" + "");
    LexSpace(rest);
    MonthWord(m.month);
    LexWord(MONTH_TEXT[m.month], " " + rest);
    var month := MONTH_TEXT[m.month] + (" " + rest);
    LexSpace(month);
    TwoDigits(m.day);
    LexNumber(m.day, 2, " " + month);
    var day := Padded(m.day, 2) + (" " + month);
    LexSpace(day);
    LexComma(" " + day);
    WeekdayWord(m.weekday);
    LexWord(WEEK_DAY_NAME[m.weekday], "," + (" " + day));
  }

  lemma TakeUTCString(m: Moment)
    requires MomentOk(m)
    ensures ParseTokens(UTCStringTokens(m)) == Accept(Printed(m, 0).(year := FullYear(Abs(m.year))))
  {
    hide LegacyDates, ParseTokens, AllFields, YearAndTimeTokens, FullYear, ZoneSeconds;
    var start := Legacy([], INT_MAX, [], LOCAL, false);
    var rest := YearAndTimeTokens(m, [ZoneWord(1)]);
    var month := [Month(m.month + 1)] + ([Space] + rest);
    var day := [Number(m.day, 2)] + ([Space] + month);
    First(Unknown, [Space] + day);
    Take(InvalidWord, [Unknown] + ([Space] + day), start);
    Take(Unknown, [Space] + day, start);
    TakeSpace(day, start);
    TakePart(m.day, 2, month, start);
    var one := start.(day := start.day + [m.day as int], hasNumber := true);
    Take(Month(m.month + 1), [Space] + rest, one);
    var two := one.(month := m.month + 1);
    TakeSpace(rest, two);
    TakeYearAndTime(m, [ZoneWord(1)], two);
    var three := two.(day := two.day + [Abs(m.year) as int], time := [m.hour, m.min, m.sec]);
    Take(ZoneWord(1), [], three);
    assert [ZoneWord(1)] + [] == [ZoneWord(1)];
    LegacyUnfold([], three.(zone := UTC));
    WordIsLegacy(UTCStringTokens(m));
    assert three.day == [m.day, Abs(m.year)];
    UtcSeconds();
    FieldsOfLegacy(m, UTC, 0);
  }

  lemma ToUTCStringRoundTrip(m: Moment)
    requires MomentOk(m)
    ensures ParseText(ToUTCString(m)) == Accept(Printed(m, 0).(year := FullYear(Abs(m.year))))
    ensures ParseText(ToUTCString(m)) == Accept(Printed(m, 0)) <==> m.year >= 100
  {
    hide Lex, ParseTokens, ToUTCString, UTCStringTokens;
    LexToUTCString(m);
    TakeUTCString(m);
  }

  /** `JSDate::ToISOString`: the form with milliseconds and Z, six digits and a sign for years outside 0 to 9999. */
  function ToISOForm(m: Moment): DateForm {
    YearMonthDay(m.year, if 0 <= m.year <= 9999 then FourDigits else SixDigits, m.month + 1, m.day,
                 Milliseconds(m.hour, m.min, m.sec, m.ms, Zulu))
  }

  lemma ToISOStringRoundTrip(m: Moment)
    requires MomentOk(m) && -999999 <= m.year <= 999999
    ensures ParseText(FormText(ToISOForm(m))) == Accept(Fields(m.year, m.month, m.day, m.hour, m.min, m.sec, m.ms, 0))
  {
    hide FormText, ParseText;
    IsoRoundTrip(ToISOForm(m));
  }

  /** An ISO time to the second, and what follows the point. */
  function FractionText(h: nat, m: nat, sec: nat, rest: string): string {
    ClockText(h, m, ":" + (Padded(sec, 2) + ("." + rest)))
  }

  lemma LexFraction(h: nat, m: nat, sec: nat, rest: string)
    requires h < 100 && m < 100 && sec < 100
    ensures Lex(FractionText(h, m, sec, rest)) ==
            ClockTokens(h, m, [Symbol(':')] + ([Number(sec, 2)] + ([Symbol('.')] + Lex(rest))))
    ensures !StartsDigit(FractionText(h, m, sec, rest))
  {
    hide Lex, Padded, ClockTokens;
    TwoDigits(sec);
    LexMark('.', rest);
    LexNumber(sec, 2, "." + rest);
    LexMark(':', Padded(sec, 2) + ("." + rest));
    LexClock(h, m, ":" + (Padded(sec, 2) + ("." + rest)));
  }

  /** A fraction padded with zeros to more than 12 digits, as in 2000T00:00:00.0000000000001, is beyond the parser's
      arithmetic in every date and time to the second, whatever follows. */
  lemma LongFraction(y: int, form: YearForm, h: nat, m: nat, sec: nat, n: nat, width: nat, rest: string)
    requires if form == FourDigits then 0 <= y <= 9999 else -999999 <= y <= 999999
    requires h < 100 && m < 100 && sec < 100 && n <= MAX_DECIMAL && width > 12 && !StartsDigit(rest)
    ensures ParseText(YearText(y, form, FractionText(h, m, sec, Padded(n, width) + rest))) == Undefined
  {
    hide Lex, Padded, YearText, YearTokens, IsoDate, IsoTime, FractionText;
    var digits := Padded(n, width) + rest;
    var time := FractionText(h, m, sec, digits);
    LexNumber(n, width, rest);
    LexFraction(h, m, sec, digits);
    LexYear(y, form, time);
    ParseYear(y, form, Lex(time));
    IsoUndefinedExactly(Lex(time));
  }
}
