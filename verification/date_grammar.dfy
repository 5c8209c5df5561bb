/** What the date parser accepts (date_parse.cpp), as functions on token sequences. */
module DateGrammar {
  import opened Basics
  import opened DateTokens

  /** The answer of the parser; undefined where its int arithmetic overflows. */
  datatype Outcome<T> = Reject | Undefined | Accept(value: T)

  type Tokens = seq<DateUnit>

  datatype Zone = Zone(sign: int, hour: int, min: int) {
    predicate IsLocal() {
      hour == INT_MAX
    }

    predicate IsUTC() {
      hour == 0 && min == 0
    }
  }

  const LOCAL: Zone := Zone(INT_MAX, INT_MAX, INT_MAX)
  const UTC: Zone := Zone(1, 0, 0)

  datatype Fields = Fields(year: int, month: int, day: int, hour: int, min: int, sec: int, ms: int, zone: int)

  predicate IsBetween(n: int, lower: int, high: int) {
    lower <= n <= high
  }

  function Pow10(n: nat): (p: nat)
    ensures p >= 1
  {
    if n == 0 then 1 else 10 * Pow10(n - 1)
  }

  /** The milliseconds of a fraction of `len` digits; none where the divisor is out of range. */
  function NormMs(value: int, len: nat): Option<int> {
    if len == 3 then Some(value)
    else if len == 2 then Some(value * 10)
    else if len == 1 then Some(value * 100)
    else if len > 12 then None
    else Some(value / Pow10(if len > 3 then len - 3 else 0))
  }

  // ---------------------------------------------------------------------------------------------
  // The ISO path

  /** Whether the tokens start an ISO date; in either case the tokens left and the numbers taken, because the
      legacy path goes on from there. */
  function IsoDate(ts: Tokens): (r: (bool, Tokens, seq<int>))
    ensures |r.2| <= 3 && |r.1| <= |ts|
  {
    if Head(ts).IsSign() then
      var t := Tail(ts);
      if !Head(t).IsDecimal(6) then (false, t, [])
      else if Head(ts) == Symbol('-') && Head(t).value == 0 then (false, Tail(t), [])
      else IsoMonth(Tail(t), [if Head(ts) == Symbol('-') then -Head(t).value else Head(t).value])
    else if Head(ts).IsDecimal(4) then IsoMonth(Tail(ts), [Head(ts).value])
    else (false, ts, [])
  }

  function IsoMonth(ts: Tokens, data: seq<int>): (r: (bool, Tokens, seq<int>))
    requires |data| <= 1
    ensures |data| <= |r.2| <= |data| + 2 && |r.1| <= |ts|
  {
    if Head(ts) != Symbol('-') then IsoEnd(ts, data)
    else
      var t := Tail(ts);
      if !Head(t).IsDecimal(2) then (false, t, data) else IsoDay(Tail(t), data + [Head(t).value])
  }

  function IsoDay(ts: Tokens, data: seq<int>): (r: (bool, Tokens, seq<int>))
    ensures |data| <= |r.2| <= |data| + 1 && |r.1| <= |ts|
  {
    if Head(ts) != Symbol('-') then IsoEnd(ts, data)
    else
      var t := Tail(ts);
      if !Head(t).IsDecimal(2) then (false, t, data) else IsoEnd(Tail(t), data + [Head(t).value])
  }

  function IsoEnd(ts: Tokens, data: seq<int>): (bool, Tokens, seq<int>) {
    (Head(ts).TimeFlag? || Head(ts).StringEnd?, ts, data)
  }

  /** The time and the zone; a date alone is in UTC, a time without a zone is local. */
  function IsoTime(ts: Tokens): Outcome<(seq<int>, Zone)> {
    if !Head(ts).TimeFlag? then Accept(([], UTC))
    else
      var h := Tail(ts);
      if !Head(h).IsDecimal(2) || Head(Tail(h)) != Symbol(':') then Reject
      else
        var m := Tail(Tail(h));
        if !Head(m).IsDecimal(2) then Reject else IsoSeconds(Tail(m), [Head(h).value, Head(m).value])
  }

  function IsoSeconds(ts: Tokens, time: seq<int>): Outcome<(seq<int>, Zone)> {
    if Head(ts) != Symbol(':') then IsoZone(ts, time)
    else
      var s := Tail(ts);
      if !Head(s).IsDecimal(2) then Reject else IsoFraction(Tail(s), time + [Head(s).value])
  }

  function IsoFraction(ts: Tokens, time: seq<int>): Outcome<(seq<int>, Zone)> {
    if Head(ts) != Symbol('.') then IsoZone(ts, time)
    else
      var f := Tail(ts);
      if !Head(f).Number? then Reject
      else
        match NormMs(Head(f).value, Head(f).len)
        case None => Undefined
        case Some(ms) => IsoZone(Tail(f), time + [ms])
  }

  function SignOf(unit: DateUnit): int {
    if unit == Symbol('-') then -1 else 1
  }

  function IsoZone(ts: Tokens, time: seq<int>): Outcome<(seq<int>, Zone)> {
    if Head(ts).IsWordZ() then Accept((time, UTC))
    else if Head(ts).IsSign() then
      var h := Tail(ts);
      if Head(h).IsDecimal(2) then
        var m := Tail(Tail(h));
        if Head(Tail(h)) != Symbol(':') || !Head(m).IsDecimal(2) then Reject
        else Accept((time, Zone(SignOf(Head(ts)), Head(h).value, Head(m).value)))
      else if Head(h).IsDecimal(4) then
        Accept((time, Zone(SignOf(Head(ts)), Head(h).value / 100, Head(h).value % 100)))
      else Reject
    else if Head(ts).StringEnd? then Accept((time, LOCAL))
    else Reject
  }

  // ---------------------------------------------------------------------------------------------
  // The legacy path

  datatype Legacy = Legacy(day: seq<int>, month: int, time: seq<int>, zone: Zone, hasNumber: bool)

  function LegacyDates(ts: Tokens, st: Legacy): Outcome<Legacy>
    decreases |ts|
  {
    if ts == [] then Accept(st)
    else
      match LegacyStep(ts[0], ts[1..], st)
      case Reject => Reject
      case Undefined => Undefined
      case Accept((rest, next)) => LegacyDates(rest, next)
  }

  lemma LegacyUnfold(ts: Tokens, st: Legacy)
    ensures ts == [] ==> LegacyDates(ts, st) == Accept(st)
    ensures ts != [] ==>
              LegacyDates(ts, st) == match LegacyStep(ts[0], ts[1..], st)
                                     case Reject => Reject
                                     case Undefined => Undefined
                                     case Accept(v) => LegacyDates(v.0, v.1)
  {
  }

  function LegacyStep(date: DateUnit, ts: Tokens, st: Legacy): (r: Outcome<(Tokens, Legacy)>)
    ensures r.Accept? ==> |r.value.0| <= |ts|
  {
    if date.Number? then LegacyNumber(date.value, ts, st.(hasNumber := true))
    else if date.Month? then Accept((ts, st.(month := date.month)))
    else if date.ZoneWord? && st.hasNumber then Accept((ts, st.(zone := UTC)))
    else if date.AmPm? then
      if st.time != [] then Accept((ts, st.(time := FixHour(st.time, date.hours))))
      else if st.hasNumber then Reject
      else Accept((ts, st))
    else if date.TimeFlag? || date.InvalidWord? then
      if st.hasNumber || Head(ts).Number? then Reject else Accept((ts, st))
    else if date.IsSign() && (st.time != [] || st.zone.IsUTC()) then LegacyZone(SignOf(date), ts, st)
    else Accept((ts, st))
  }

  function FixHour(time: seq<int>, hours: int): seq<int>
    requires time != []
  {
    if time[0] < 12 then time[0 := time[0] + hours] else time
  }

  function LegacyNumber(num: int, ts: Tokens, st: Legacy): (r: Outcome<(Tokens, Legacy)>)
    ensures r.Accept? ==> |r.value.0| <= |ts|
  {
    if Head(ts) == Symbol(':') then
      if !Head(Tail(ts)).Number? || |st.time| >= 4 then Reject
      else Accept((Tail(ts), st.(time := st.time + [num])))
    else if Head(ts) == Symbol('.') && |st.time| == 2 && IsBetween(num, 0, 59) then
      var f := Tail(ts);
      if !Head(f).Number? then Reject
      else
        match NormMs(Head(f).value, Head(f).len)
        case None => Undefined
        case Some(ms) =>
          if !Head(Tail(f)).IsValidFinallyTime() then Reject
          else Accept((Tail(f), st.(time := st.time + [num] + [ms])))
    else if (|st.time| == 1 || |st.time| == 2) && IsBetween(num, 0, 59) then
      if !Head(ts).IsValidFinallyTime() then Reject else Accept((ts, st.(time := st.time + [num])))
    else if |st.day| >= 3 then Reject
    else Accept((ts, st.(day := st.day + [num])))
  }

  function LegacyZone(sign: int, ts: Tokens, st: Legacy): (r: Outcome<(Tokens, Legacy)>)
    ensures r.Accept? ==> |r.value.0| <= |ts|
  {
    if !Head(ts).Number? then Reject
    else
      var num, len, t := Head(ts).value, Head(ts).len, Tail(ts);
      if Head(t) == Symbol(':') then
        if !Head(Tail(t)).Number? then Reject
        else Accept((Tail(Tail(t)), st.(zone := Zone(sign, num, Head(Tail(t)).value))))
      else if len == 1 || len == 2 then Accept((t, st.(zone := Zone(sign, num, 0))))
      else if len == 3 || len == 4 then Accept((t, st.(zone := Zone(sign, num / 100, num % 100))))
      else Reject
  }

  // ---------------------------------------------------------------------------------------------
  // The fields

  function ZoneSeconds(zone: Zone): Option<int> {
    if zone.IsLocal() then Some(INT_MAX)
    else if !IsBetween(zone.hour, 0, 24) || !IsBetween(zone.min, 0, 59) then None
    else Some(zone.sign * (zone.hour * 3600 + zone.min * 60))
  }

  function TimeAt(time: seq<int>, i: nat): int {
    if i < |time| then time[i] else 0
  }

  predicate TimeIsValid(time: seq<int>) {
    if TimeAt(time, 0) == 24 then TimeAt(time, 1) == 0 && TimeAt(time, 2) == 0 && TimeAt(time, 3) == 0
    else
      && IsBetween(TimeAt(time, 0), 0, 24) && IsBetween(TimeAt(time, 1), 0, 59)
      && IsBetween(TimeAt(time, 2), 0, 59) && IsBetween(TimeAt(time, 3), 0, 999)
  }

  function DayAt(data: seq<int>, i: nat): int {
    if i < |data| then data[i] else 1
  }

  /** Two-digit years of the legacy path. */
  function FullYear(year: int): int {
    if IsBetween(year, 0, 49) then year + 2000 else if IsBetween(year, 50, 99) then year + 1900 else year
  }

  /** Which number is the year, which the month (1 to 12) and which the day. */
  function DayOrder(data: seq<int>, month: int, iso: bool): Option<(int, int, int)> {
    if month == INT_MAX then
      if iso || (|data| == 3 && IsBetween(data[2], 1, 31) && !IsBetween(data[0], 1, 12)) then
        Some((DayAt(data, 0), DayAt(data, 1), DayAt(data, 2)))
      else if |data| == 3 then Some((data[2], data[0], data[1]))
      else Some((DayAt(data, 0), DayAt(data, 1), DayAt(data, 2)))
    else if |data| == 3 then None
    else if |data| == 2 then
      if !IsBetween(data[0], 1, 31) then Some((data[0], month, data[1])) else Some((data[1], month, data[0]))
    else Some((1, month, DayAt(data, 0)))
  }

  function DayFields(data: seq<int>, month: int, iso: bool): Option<(int, int, int)> {
    if data == [] then None
    else
      match DayOrder(data, month, iso)
      case None => None
      case Some((y, m, d)) =>
        if !IsBetween(m, 1, 12) || !IsBetween(d, 1, 31) then None
        else Some((if iso then y else FullYear(y), m - 1, d))
  }

  function AllFields(data: seq<int>, month: int, iso: bool, time: seq<int>, zone: Zone): (r: Outcome<Fields>)
    ensures !r.Undefined?
  {
    match (ZoneSeconds(zone), DayFields(data, month, iso))
    case (Some(z), Some((y, m, d))) =>
      if TimeIsValid(time) then Accept(Fields(y, m, d, TimeAt(time, 0), TimeAt(time, 1), TimeAt(time, 2), TimeAt(time, 3), z))
      else Reject
    case _ => Reject
  }

  /** The whole parser. */
  function ParseTokens(ts: Tokens): Outcome<Fields> {
    var (iso, rest, data) := IsoDate(ts);
    if iso then
      match IsoTime(rest)
      case Reject => Reject
      case Undefined => Undefined
      case Accept((time, zone)) => AllFields(data, INT_MAX, true, time, zone)
    else
      match LegacyDates(rest, Legacy(data, INT_MAX, [], LOCAL, |data| > 0))
      case Reject => Reject
      case Undefined => Undefined
      case Accept(st) => AllFields(st.day, st.month, false, st.time, st.zone)
  }

  function ParseText(s: string): Outcome<Fields> {
    ParseTokens(Lex(s))
  }

  // ---------------------------------------------------------------------------------------------
  // What every accepted date satisfies

  predicate ZoneOk(z: Zone) {
    z == LOCAL || ((z.sign == 1 || z.sign == -1) && 0 <= z.hour < INT_MAX && 0 <= z.min < INT_MAX)
  }

  predicate NumberOk(t: DateUnit) {
    t.Number? ==> 0 <= t.value < INT_MAX && t.len >= 1
  }

  ghost predicate NumbersOk(ts: Tokens) {
    forall i :: 0 <= i < |ts| ==> NumberOk(ts[i])
  }

  lemma {:induction false} LexNumbersOk(s: string)
    ensures NumbersOk(Lex(s))
    decreases |s|
  {
    hide Count, SkipDigits, SkipAlpha, Letters, Lex;
    LexStep(s);
    if !AtEnd(s) {
      CountFacts(s, 0);
      LexNumbersOk(Token(s).1);
      var ts, rest := Lex(s), Lex(Token(s).1);
      forall i | 0 <= i < |ts| ensures NumberOk(ts[i]) {
        assert i > 0 ==> ts[i] == rest[i - 1];
      }
    }
  }

  lemma {:induction false} LegacyZoneOk(ts: Tokens, st: Legacy)
    requires NumbersOk(ts) && ZoneOk(st.zone)
    ensures LegacyDates(ts, st).Accept? ==> ZoneOk(LegacyDates(ts, st).value.zone)
    decreases |ts|
  {
    if ts != [] {
      var r := LegacyStep(ts[0], ts[1..], st);
      if r.Accept? {
        StepZoneOk(ts[0], ts[1..], st);
        LegacyZoneOk(r.value.0, r.value.1);
      }
    }
  }

  lemma StepZoneOk(date: DateUnit, ts: Tokens, st: Legacy)
    requires NumberOk(date) && NumbersOk(ts) && ZoneOk(st.zone) && LegacyStep(date, ts, st).Accept?
    ensures NumbersOk(LegacyStep(date, ts, st).value.0) && ZoneOk(LegacyStep(date, ts, st).value.1.zone)
  {
  }

  lemma TailOk(ts: Tokens)
    requires NumbersOk(ts)
    ensures NumberOk(Head(ts)) && NumbersOk(Tail(ts))
  {
  }

  lemma IsoZoneOk(ts: Tokens, time: seq<int>)
    requires NumbersOk(ts)
    ensures IsoZone(ts, time).Accept? ==> ZoneOk(IsoZone(ts, time).value.1)
  {
    hide NumbersOk;
    TailOk(ts);
    TailOk(Tail(ts));
    TailOk(Tail(Tail(ts)));
    TailOk(Tail(Tail(Tail(ts))));
  }

  lemma IsoSecondsOk(ts: Tokens, time: seq<int>)
    requires NumbersOk(ts)
    ensures IsoSeconds(ts, time).Accept? ==> ZoneOk(IsoSeconds(ts, time).value.1)
  {
    hide NumbersOk, IsoZone, ZoneOk, NormMs;
    TailOk(ts);
    IsoZoneOk(ts, time);
    var s := Tail(ts);
    TailOk(s);
    if Head(s).Number? {
      var more := time + [Head(s).value];
      IsoZoneOk(Tail(s), more);
      var f := Tail(Tail(s));
      TailOk(Tail(s));
      TailOk(f);
      if Head(f).Number? && NormMs(Head(f).value, Head(f).len).Some? {
        IsoZoneOk(Tail(f), more + [NormMs(Head(f).value, Head(f).len).value]);
      }
    }
  }

  lemma IsoTimeOk(ts: Tokens)
    requires NumbersOk(ts)
    ensures IsoTime(ts).Accept? ==> ZoneOk(IsoTime(ts).value.1)
  {
    hide NumbersOk, IsoSeconds;
    TailOk(ts);
    var h := Tail(ts);
    TailOk(h);
    TailOk(Tail(h));
    var m := Tail(Tail(h));
    TailOk(m);
    if Head(h).Number? && Head(m).Number? {
      IsoSecondsOk(Tail(m), [Head(h).value, Head(m).value]);
    }
  }

  predicate FieldsOk(f: Fields) {
    && 0 <= f.month <= 11 && 1 <= f.day <= 31
    && (if f.hour == 24 then f.min == f.sec == f.ms == 0
        else 0 <= f.hour <= 23 && 0 <= f.min <= 59 && 0 <= f.sec <= 59 && 0 <= f.ms <= 999)
    && (f.zone == INT_MAX || -(24 * 3600 + 59 * 60) <= f.zone <= 24 * 3600 + 59 * 60)
  }

  lemma AllFieldsOk(data: seq<int>, month: int, iso: bool, time: seq<int>, zone: Zone)
    requires ZoneOk(zone) && AllFields(data, month, iso, time, zone).Accept?
    ensures FieldsOk(AllFields(data, month, iso, time, zone).value)
    ensures AllFields(data, month, iso, time, zone).value.zone == INT_MAX <==> zone == LOCAL
  {
  }

  lemma IsoDateOk(ts: Tokens)
    requires NumbersOk(ts)
    ensures NumbersOk(IsoDate(ts).1)
  {
    hide NumbersOk;
    TailOk(ts);
    var t := Tail(ts);
    TailOk(t);
    IsoMonthOk(t, if Head(ts).Number? then [Head(ts).value] else []);
    if Head(ts).IsSign() && Head(t).IsDecimal(6) {
      TailOk(Tail(t));
      IsoMonthOk(Tail(t), [if Head(ts) == Symbol('-') then -Head(t).value else Head(t).value]);
    }
  }

  lemma IsoMonthOk(ts: Tokens, data: seq<int>)
    requires NumbersOk(ts) && |data| <= 1
    ensures NumbersOk(IsoMonth(ts, data).1)
  {
    hide NumbersOk;
    TailOk(ts);
    TailOk(Tail(ts));
    TailOk(Tail(Tail(ts)));
    TailOk(Tail(Tail(Tail(ts))));
  }

  /** Every accepted date has a month 0 to 11, a day 1 to 31, a valid time with hour 24 only as 24:00:00.000, and a
      zone that is INT_MAX or at most 24 hours 59 minutes from UTC. */
  lemma ParsedFieldsOk(s: string)
    ensures ParseText(s).Accept? ==> FieldsOk(ParseText(s).value)
  {
    hide Lex, LegacyDates, IsoTime, AllFields, FieldsOk, NumbersOk, IsoDate;
    LexNumbersOk(s);
    var ts := Lex(s);
    IsoDateOk(ts);
    var (iso, rest, data) := IsoDate(ts);
    if iso {
      IsoTimeOk(rest);
      if ParseText(s).Accept? {
        var (time, zone) := IsoTime(rest).value;
        AllFieldsOk(data, INT_MAX, true, time, zone);
      }
    } else {
      var start := Legacy(data, INT_MAX, [], LOCAL, |data| > 0);
      LegacyZoneOk(rest, start);
      if ParseText(s).Accept? {
        var st := LegacyDates(rest, start).value;
        AllFieldsOk(st.day, st.month, false, st.time, st.zone);
      }
    }
  }

  // ---------------------------------------------------------------------------------------------
  // Fractions

  predicate AllDigits(ds: string) {
    forall i :: 0 <= i < |ds| ==> IsDigit(ds[i])
  }

  /** The first three digits, padded with zeros. */
  function FirstThree(ds: string): string
    requires ds != []
  {
    (ds + "00")[..3]
  }

  lemma DivideTens(a: nat, d: nat, b: nat)
    requires d < 10 && b >= 1
    ensures (10 * a + d) / (10 * b) == a / b
  {
    var q, r := a / b, a % b;
    assert a == b * q + r;
    assert 10 * a + d == (10 * b) * q + (10 * r + d);
    assert 10 * r + d < 10 * b;
    DivideUnique(10 * a + d, 10 * b, q, 10 * r + d);
  }

  lemma DivideUnique(x: nat, b: nat, q: nat, r: nat)
    requires b >= 1 && x == b * q + r && r < b
    ensures x / b == q
  {
    var q', r' := x / b, x % b;
    assert x == b * q' + r' && 0 <= r' < b;
    if q < q' {
      Apart(b, q, r, q', r');
      assert false;
    } else if q' < q {
      Apart(b, q', r', q, r);
      assert false;
    }
  }

  lemma Apart(b: nat, q: nat, r: nat, q': nat, r': nat)
    requires q < q' && r < b
    ensures b * q + r < b * q' + r'
  {
    assert b * (q + 1) <= b * q';
  }

  lemma {:induction false} LeadingThree(ds: string)
    requires AllDigits(ds) && |ds| >= 3
    ensures Decimal(ds) / Pow10(|ds| - 3) == Decimal(ds[..3])
  {
    if |ds| == 3 {
      assert ds[..3] == ds;
    } else {
      var init := ds[..|ds| - 1];
      LeadingThree(init);
      assert init[..3] == ds[..3];
      DivideTens(Decimal(init), Digit(ds[|ds| - 1]), Pow10(|ds| - 4));
    }
  }

  lemma AppendZero(ds: string)
    requires AllDigits(ds)
    ensures AllDigits(ds + ['0']) && Decimal(ds + ['0']) == 10 * Decimal(ds)
  {
    assert (ds + ['0'])[..|ds|] == ds;
  }

  lemma FirstThreeIs(ds: string)
    requires AllDigits(ds) && ds != []
    ensures AllDigits(FirstThree(ds))
    ensures |ds| >= 3 ==> FirstThree(ds) == ds[..3]
    ensures |ds| == 3 ==> FirstThree(ds) == ds
    ensures |ds| == 2 ==> FirstThree(ds) == ds + ['0']
    ensures |ds| == 1 ==> FirstThree(ds) == ds + ['0'] + ['0']
  {
  }

  lemma NormCases(value: int, len: nat)
    requires len >= 1
    ensures len == 1 ==> NormMs(value, len) == Some(100 * value)
    ensures len == 2 ==> NormMs(value, len) == Some(10 * value)
    ensures 3 <= len <= 12 ==> NormMs(value, len) == Some(value / Pow10(len - 3))
    ensures len > 12 ==> NormMs(value, len) == None
  {
  }

  /** The milliseconds are the first three digits of a fraction, padded with zeros, exactly when at most 12 digits
      are counted. */
  lemma MillisecondsExactly(ds: string)
    requires AllDigits(ds) && ds != []
    ensures AllDigits(FirstThree(ds))
    ensures NormMs(Decimal(ds), |ds|) == Some(Decimal(FirstThree(ds))) <==> |ds| <= 12
  {
    hide Decimal, Pow10, FirstThree, NormMs;
    FirstThreeIs(ds);
    NormCases(Decimal(ds), |ds|);
    if |ds| >= 3 {
      LeadingThree(ds);
    } else {
      AppendZero(ds);
      AppendZero(ds + ['0']);
    }
  }

  // ---------------------------------------------------------------------------------------------
  // Which tokens are an ISO date and time

  /** A number of so many digits at position `k`. */
  predicate DigitsAt(ts: Tokens, k: nat, digits: nat) {
    k < |ts| && ts[k].Number? && ts[k].len == digits
  }

  predicate SymbolAt(ts: Tokens, k: nat, c: char) {
    k < |ts| && ts[k] == Symbol(c)
  }

  /** A date whose year ends before position `k` may end there, or go on with one or two parts of two digits. */
  predicate IsoDayAt(ts: Tokens, k: nat, parts: nat)
    decreases parts
  {
    || k == |ts| || (k < |ts| && ts[k].TimeFlag?)
    || (parts > 0 && SymbolAt(ts, k, '-') && DigitsAt(ts, k + 1, 2) && IsoDayAt(ts, k + 2, parts - 1))
  }

  /** Four digits, or six after a sign, but not the negative year zero. */
  predicate IsoYearAt(ts: Tokens, k: nat) {
    || (k == 1 && DigitsAt(ts, 0, 4))
    || (k == 2 && (SymbolAt(ts, 0, '+') || SymbolAt(ts, 0, '-')) && DigitsAt(ts, 1, 6)
        && !(ts[0] == Symbol('-') && ts[1].value == 0))
  }

  lemma TailAt(ts: Tokens, k: nat)
    requires k <= |ts|
    ensures Head(ts[k..]) == if k < |ts| then ts[k] else StringEnd
    ensures Tail(ts[k..]) == if k < |ts| then ts[k + 1..] else ts[k..]
  {
  }

  ghost predicate Endless(ts: Tokens) {
    forall i :: 0 <= i < |ts| ==> !ts[i].StringEnd?
  }

  lemma IsoEndExactly(ts: Tokens, k: nat, data: seq<int>)
    requires k <= |ts| && Endless(ts)
    ensures IsoEnd(ts[k..], data).0 <==> IsoDayAt(ts, k, 0)
  {
    TailAt(ts, k);
  }

  lemma IsoDayExactly(ts: Tokens, k: nat, data: seq<int>)
    requires k <= |ts| && Endless(ts)
    ensures IsoDay(ts[k..], data).0 <==> IsoDayAt(ts, k, 1)
  {
    hide IsoEnd, Endless;
    TailAt(ts, k);
    IsoEndExactly(ts, k, data);
    if k + 1 < |ts| && ts[k + 1].Number? {
      TailAt(ts, k + 1);
      IsoEndExactly(ts, k + 2, data + [ts[k + 1].value]);
    }
  }

  lemma IsoMonthExactly(ts: Tokens, k: nat, data: seq<int>)
    requires k <= |ts| && Endless(ts) && |data| <= 1
    ensures IsoMonth(ts[k..], data).0 <==> IsoDayAt(ts, k, 2)
  {
    hide IsoEnd, IsoDay, Endless;
    TailAt(ts, k);
    IsoEndExactly(ts, k, data);
    if k + 1 < |ts| && ts[k + 1].Number? {
      TailAt(ts, k + 1);
      IsoDayExactly(ts, k + 2, data + [ts[k + 1].value]);
    }
  }

  /** The ISO path takes exactly these token sequences. */
  lemma IsoDateExactly(ts: Tokens)
    requires Endless(ts)
    ensures IsoDate(ts).0 <==> exists k: nat :: k <= 2 && IsoYearAt(ts, k) && IsoDayAt(ts, k, 2)
  {
    hide IsoMonth, IsoDay, IsoDayAt;
    assert ts[0..] == ts;
    TailAt(ts, 0);
    if DigitsAt(ts, 0, 4) {
      TailAt(ts, 1);
      IsoMonthExactly(ts, 1, [ts[0].value]);
      assert IsoYearAt(ts, 1);
    } else if |ts| >= 2 && IsoYearAt(ts, 2) {
      TailAt(ts, 1);
      TailAt(ts, 2);
      IsoMonthExactly(ts, 2, [if ts[0] == Symbol('-') then -ts[1].value else ts[1].value]);
    }
  }

  /** The end, a Z, or a sign with four digits or with two and two. */
  predicate IsoZoneAt(ts: Tokens, k: nat) {
    || k == |ts| || (k < |ts| && ts[k] == ZoneWord(0))
    || ((SymbolAt(ts, k, '+') || SymbolAt(ts, k, '-'))
        && (DigitsAt(ts, k + 1, 4) || (DigitsAt(ts, k + 1, 2) && SymbolAt(ts, k + 2, ':') && DigitsAt(ts, k + 3, 2))))
  }

  lemma IsoZoneExactly(ts: Tokens, k: nat, time: seq<int>)
    requires k <= |ts| && Endless(ts)
    ensures IsoZone(ts[k..], time).Accept? <==> IsoZoneAt(ts, k)
  {
    TailAt(ts, k);
    if k + 1 <= |ts| {
      TailAt(ts, k + 1);
    }
    if k + 2 <= |ts| {
      TailAt(ts, k + 2);
    }
    if k + 3 <= |ts| {
      TailAt(ts, k + 3);
    }
  }

  predicate IsoFractionAt(ts: Tokens, k: nat) {
    if !SymbolAt(ts, k, '.') then IsoZoneAt(ts, k)
    else k + 1 < |ts| && ts[k + 1].Number? && ts[k + 1].len <= 12 && IsoZoneAt(ts, k + 2)
  }

  predicate IsoSecondsAt(ts: Tokens, k: nat) {
    if !SymbolAt(ts, k, ':') then IsoZoneAt(ts, k) else DigitsAt(ts, k + 1, 2) && IsoFractionAt(ts, k + 2)
  }

  /** Hours and minutes, then perhaps seconds, and then perhaps a fraction of at most 12 counted digits. */
  predicate IsoTimeAt(ts: Tokens) {
    DigitsAt(ts, 1, 2) && SymbolAt(ts, 2, ':') && DigitsAt(ts, 3, 2) && IsoSecondsAt(ts, 4)
  }

  lemma IsoFractionExactly(ts: Tokens, k: nat, time: seq<int>)
    requires k <= |ts| && Endless(ts)
    ensures IsoFraction(ts[k..], time).Accept? <==> IsoFractionAt(ts, k)
  {
    hide IsoZone, IsoZoneAt, Pow10, Endless;
    TailAt(ts, k);
    IsoZoneExactly(ts, k, time);
    if k + 1 < |ts| {
      TailAt(ts, k + 1);
      if ts[k + 1].Number? && NormMs(ts[k + 1].value, ts[k + 1].len).Some? {
        IsoZoneExactly(ts, k + 2, time + [NormMs(ts[k + 1].value, ts[k + 1].len).value]);
      }
    }
  }

  lemma IsoSecondsExactly(ts: Tokens, k: nat, time: seq<int>)
    requires k <= |ts| && Endless(ts)
    ensures IsoSeconds(ts[k..], time).Accept? <==> IsoSecondsAt(ts, k)
  {
    hide IsoZone, IsoZoneAt, IsoFraction, IsoFractionAt, Endless;
    TailAt(ts, k);
    IsoZoneExactly(ts, k, time);
    if k + 1 < |ts| {
      TailAt(ts, k + 1);
      if ts[k + 1].Number? {
        IsoFractionExactly(ts, k + 2, time + [ts[k + 1].value]);
      }
    }
  }

  lemma IsoTimeExactly(ts: Tokens)
    requires ts != [] && ts[0].TimeFlag? && Endless(ts)
    ensures IsoTime(ts).Accept? <==> IsoTimeAt(ts)
  {
    hide IsoSeconds, IsoSecondsAt, Endless;
    assert ts[0..] == ts;
    TailAt(ts, 0);
    TailAt(ts, 1);
    if |ts| >= 3 {
      TailAt(ts, 2);
      TailAt(ts, 3);
    }
    if |ts| >= 4 && ts[1].Number? && ts[3].Number? {
      IsoSecondsExactly(ts, 4, [ts[1].value, ts[3].value]);
    }
  }

  // ---------------------------------------------------------------------------------------------
  // Where the arithmetic overflows

  predicate IsLongNumber(t: DateUnit) {
    t.Number? && t.len > 12
  }

  /** A time of two-digit hours, minutes and seconds whose fraction has more than 12 digits counted. */
  predicate LongIsoFraction(ts: Tokens) {
    && |ts| >= 8
    && ts[0].TimeFlag? && ts[1].IsDecimal(2) && ts[2] == Symbol(':') && ts[3].IsDecimal(2)
    && ts[4] == Symbol(':') && ts[5].IsDecimal(2) && ts[6] == Symbol('.') && IsLongNumber(ts[7])
  }

  lemma IsoZoneDefined(ts: Tokens, time: seq<int>)
    ensures !IsoZone(ts, time).Undefined?
  {
  }

  lemma IsoUndefinedExactly(ts: Tokens)
    ensures IsoTime(ts).Undefined? <==> LongIsoFraction(ts)
  {
    hide IsoSeconds;
    assert ts[0..] == ts;
    TailAt(ts, 0);
    if |ts| >= 4 {
      TailAt(ts, 1);
      TailAt(ts, 2);
      TailAt(ts, 3);
      if ts[1].Number? && ts[3].Number? {
        SecondsUndefined(ts, [ts[1].value, ts[3].value]);
      }
    }
  }

  lemma SecondsUndefined(ts: Tokens, time: seq<int>)
    requires |ts| >= 4
    ensures IsoSeconds(ts[4..], time).Undefined? <==>
              |ts| >= 8 && ts[4] == Symbol(':') && ts[5].IsDecimal(2) && ts[6] == Symbol('.') && IsLongNumber(ts[7])
  {
    hide IsoZone, Pow10;
    TailAt(ts, 4);
    IsoZoneDefined(ts[4..], time);
    if |ts| >= 6 && ts[5].Number? {
      TailAt(ts, 5);
      TailAt(ts, 6);
      var more := time + [ts[5].value];
      IsoZoneDefined(ts[6..], more);
      if |ts| >= 8 && ts[7].Number? && NormMs(ts[7].value, ts[7].len).Some? {
        TailAt(ts, 7);
        IsoZoneDefined(ts[8..], more + [NormMs(ts[7].value, ts[7].len).value]);
      } else if |ts| >= 7 {
        TailAt(ts, 7);
      }
    }
  }

  /** Where the legacy loop stands after `n` rounds that it accepts. */
  function LegacyAfter(ts: Tokens, st: Legacy, n: nat): Option<(Tokens, Legacy)>
    decreases n
  {
    if n == 0 then Some((ts, st))
    else if ts == [] then None
    else
      match LegacyStep(ts[0], ts[1..], st)
      case Accept((rest, next)) => LegacyAfter(rest, next, n - 1)
      case _ => None
  }

  /** The seconds are next, with a fraction of which more than 12 digits are counted. */
  predicate LongLegacyFraction(ts: Tokens, st: Legacy) {
    && |ts| >= 3 && |st.time| == 2
    && ts[0].Number? && IsBetween(ts[0].value, 0, 59) && ts[1] == Symbol('.') && IsLongNumber(ts[2])
  }

  ghost predicate OverflowsAfter(ts: Tokens, st: Legacy, n: nat) {
    var r := LegacyAfter(ts, st, n);
    r.Some? && LongLegacyFraction(r.value.0, r.value.1)
  }

  ghost predicate Overflows(ts: Tokens, st: Legacy) {
    exists n: nat :: OverflowsAfter(ts, st, n)
  }

  lemma StepUndefined(date: DateUnit, ts: Tokens, st: Legacy)
    ensures LegacyStep(date, ts, st).Undefined? <==> LongLegacyFraction([date] + ts, st)
  {
    hide Pow10, LegacyZone;
    assert !LegacyZone(SignOf(date), ts, st).Undefined? by {
      ZoneDefined(SignOf(date), ts, st);
    }
  }

  lemma ZoneDefined(sign: int, ts: Tokens, st: Legacy)
    ensures !LegacyZone(sign, ts, st).Undefined?
  {
  }

  /** The legacy path overflows exactly when some number of accepted rounds leads to such a fraction. */
  lemma {:induction false} LegacyUndefinedExactly(ts: Tokens, st: Legacy)
    ensures LegacyDates(ts, st).Undefined? <==> Overflows(ts, st)
    decreases |ts|
  {
    hide LegacyStep, LongLegacyFraction;
    if ts == [] {
      forall n: nat ensures !OverflowsAfter(ts, st, n) {
        EmptyIsShort(ts, st);
      }
    } else {
      var r := LegacyStep(ts[0], ts[1..], st);
      assert [ts[0]] + ts[1..] == ts;
      StepUndefined(ts[0], ts[1..], st);
      assert OverflowsAfter(ts, st, 0) <==> r.Undefined?;
      if r.Accept? {
        LegacyUndefinedExactly(r.value.0, r.value.1);
        if n: nat :| OverflowsAfter(r.value.0, r.value.1, n) {
          assert OverflowsAfter(ts, st, n + 1);
        }
        if n: nat :| OverflowsAfter(ts, st, n) {
          assert n > 0 && OverflowsAfter(r.value.0, r.value.1, n - 1);
        }
      } else {
        forall n: nat ensures OverflowsAfter(ts, st, n) ==> n == 0 {
        }
      }
    }
  }

  lemma EmptyIsShort(ts: Tokens, st: Legacy)
    requires ts == []
    ensures !LongLegacyFraction(ts, st)
  {
  }

  /** The parser's arithmetic overflows exactly for a fraction of a second of which more than 12 digits are counted:
      after an ISO date in an ISO time, or where the legacy loop has two clock parts and reads the third. */
  lemma UndefinedExactly(s: string)
    ensures var (iso, rest, data) := IsoDate(Lex(s));
            ParseText(s).Undefined? <==>
              if iso then LongIsoFraction(rest)
              else Overflows(rest, Legacy(data, INT_MAX, [], LOCAL, |data| > 0))
  {
    hide Lex, LegacyDates, IsoTime, AllFields, IsoDate, LongIsoFraction, Overflows;
    var (iso, rest, data) := IsoDate(Lex(s));
    IsoUndefinedExactly(rest);
    LegacyUndefinedExactly(rest, Legacy(data, INT_MAX, [], LOCAL, |data| > 0));
  }

  // ---------------------------------------------------------------------------------------------
  // A text without a run of 13 digits never makes it overflow

  /** The 13 characters at `i` are digits. */
  ghost predicate LongRunAt(s: string, i: nat) {
    i + 13 <= |s| && forall j :: i <= j < i + 13 ==> IsDigit(s[j])
  }

  ghost predicate ShortRuns(s: string) {
    forall i: nat :: !LongRunAt(s, i)
  }

  ghost predicate ShortNumbers(ts: Tokens) {
    forall i :: 0 <= i < |ts| ==> !IsLongNumber(ts[i])
  }

  lemma ShortSuffix(s: string, k: nat)
    requires k <= |s| && ShortRuns(s)
    ensures ShortRuns(s[k..])
  {
    forall i: nat ensures !LongRunAt(s[k..], i) {
      assert !LongRunAt(s, k + i);
    }
  }

  lemma {:induction false} SkipsShort(s: string)
    requires ShortRuns(s)
    ensures ShortRuns(SkipDigits(s)) && ShortRuns(SkipAlpha(s))
  {
    if s != [] {
      ShortSuffix(s, 1);
      SkipsShort(s[1..]);
    }
  }

  lemma {:induction false} LexShort(s: string)
    requires ShortRuns(s)
    ensures ShortNumbers(Lex(s))
    decreases |s|
  {
    hide Count, SkipDigits, SkipAlpha, Letters, Lex, ShortRuns;
    LexStep(s);
    if !AtEnd(s) {
      CountFacts(s, 0);
      CountShort(s);
      SkipsShort(s);
      ShortSuffix(s, 1);
      LexShort(Token(s).1);
      var ts, rest := Lex(s), Lex(Token(s).1);
      forall i | 0 <= i < |ts| ensures !IsLongNumber(ts[i]) {
        assert i > 0 ==> ts[i] == rest[i - 1];
      }
    }
  }

  lemma CountShort(s: string)
    requires ShortRuns(s)
    ensures Count(s, 0).1 <= 12
  {
    hide Count;
    CountFacts(s, 0);
    assert !LongRunAt(s, 0);
  }

  lemma {:induction false} ShortAfter(ts: Tokens, st: Legacy, n: nat)
    requires ShortNumbers(ts)
    ensures LegacyAfter(ts, st, n).Some? ==> ShortNumbers(LegacyAfter(ts, st, n).value.0)
    decreases n
  {
    if n > 0 && ts != [] {
      var r := LegacyStep(ts[0], ts[1..], st);
      if r.Accept? {
        StepShort(ts[0], ts[1..], st);
        ShortAfter(r.value.0, r.value.1, n - 1);
      }
    }
  }

  lemma StepShort(date: DateUnit, ts: Tokens, st: Legacy)
    requires ShortNumbers(ts) && LegacyStep(date, ts, st).Accept?
    ensures ShortNumbers(LegacyStep(date, ts, st).value.0)
  {
  }

  lemma TailShort(ts: Tokens)
    requires ShortNumbers(ts)
    ensures ShortNumbers(Tail(ts))
  {
  }

  lemma IsoDateShort(ts: Tokens)
    requires ShortNumbers(ts)
    ensures ShortNumbers(IsoDate(ts).1)
  {
    hide ShortNumbers;
    TailShort(ts);
    TailShort(Tail(ts));
    TailShort(Tail(Tail(ts)));
    TailShort(Tail(Tail(Tail(ts))));
    TailShort(Tail(Tail(Tail(Tail(ts)))));
    TailShort(Tail(Tail(Tail(Tail(Tail(ts))))));
  }

  lemma ShortRunsDefined(s: string)
    requires ShortRuns(s)
    ensures !ParseText(s).Undefined?
  {
    hide Lex, ParseText, IsoDate, ShortRuns;
    LexShort(s);
    IsoDateShort(Lex(s));
    UndefinedExactly(s);
    var (iso, rest, data) := IsoDate(Lex(s));
    var start := Legacy(data, INT_MAX, [], LOCAL, |data| > 0);
    forall n: nat ensures !OverflowsAfter(rest, start, n) {
      ShortAfter(rest, start, n);
    }
  }
}
