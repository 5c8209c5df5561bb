/** What the texts outside the Date Time String Format mean: numbers and month names in any order, a clock with AM or PM,
    zone words and offsets.  The meaning is given on the parts of the text alone. */
module DateLegacy {
  import opened Basics
  import opened DateTokens
  import opened DateGrammar
  import opened DatePrinting

  // ---------------------------------------------------------------------------------------------
  // Texts

  /** A number, zero-padded to a width, or a month name with any letters behind its first three. */
  datatype Item = Num(n: nat, width: nat) | Name(i: nat, more: string)

  /** The seconds of a clock, and the digits of their fraction. */
  datatype Seconds = NoSeconds | Whole(s: nat, width: nat) | Fractional(s: nat, width: nat, digits: string)

  datatype Clock = Clock(h: nat, hw: nat, m: nat, mw: nat, seconds: Seconds)

  datatype Meridiem = NoMeridiem | AM | PM

  /** An offset from the zone: hours alone, hours and minutes together, or with a colon. */
  datatype Shift =
    | NoShift
    | Hours(negative: bool, h: nat, width: nat)
    | Together(negative: bool, h: nat, m: nat, width: nat)
    | Apart(negative: bool, h: nat, hw: nat, m: nat, mw: nat)

  datatype ZonePart = ZonePart(space: bool, word: string, shift: Shift)

  datatype Ending = Ending(clock: Option<Clock>, meridiem: Meridiem, zone: ZonePart)

  const NOTHING: Ending := Ending(None, NoMeridiem, ZonePart(false, "", NoShift))

  /** A character that separates: no digit, no letter, no mark, not the end. */
  predicate IsGap(c: char) {
    !IsDigit(c) && !IsAlpha(c) && !IsMark(c) && c != DEL
  }

  predicate ItemOk(it: Item) {
    match it
    case Num(n, _) => n <= MAX_DECIMAL
    case Name(i, more) => i <= 11 && AllAlpha(more)
  }

  predicate ItemsOk(items: seq<Item>) {
    items != [] && forall k :: 0 <= k < |items| ==> ItemOk(items[k])
  }

  /** The last number of a clock is a minute or a second; a fraction has at most 12 digits that count. */
  predicate ClockOk(c: Clock) {
    && c.h <= MAX_DECIMAL && c.m <= MAX_DECIMAL
    && match c.seconds {
         case NoSeconds => c.m <= 59
         case Whole(s, _) => s <= 59
         case Fractional(s, _, ds) => s <= 59 && ds != [] && AllDigits(ds) && Count(ds, 0).1 <= 12
       }
  }

  predicate IsZ(w: string) {
    w == "Z" || w == "z"
  }

  predicate IsZoneWord(w: string) {
    IsZ(w) || w == "UTC" || w == "utc" || w == "GMT" || w == "gmt"
  }

  predicate ShiftOk(f: Shift) {
    match f
    case NoShift => true
    case Hours(_, h, width) => h <= 99 && width <= 2
    case Together(_, h, m, width) => h <= 99 && m <= 99 && (width == 4 || (width == 3 && h <= 9))
    case Apart(_, h, _, m, _) => h <= MAX_DECIMAL && m <= MAX_DECIMAL
  }

  predicate ZoneTextOk(z: ZonePart) {
    (z.word == "" || IsZoneWord(z.word)) && ShiftOk(z.shift)
  }

  /** A word is set off by a space, except a Z right behind the clock; AM or PM follows a clock, and so does an offset
      unless a zone word comes before it. */
  predicate EndingOk(t: Ending) {
    && ZoneTextOk(t.zone) && (t.clock.Some? ==> ClockOk(t.clock.value))
    && (t.clock == None ==> t.meridiem == NoMeridiem && (t.zone.shift != NoShift ==> t.zone.word != ""))
    && (t.zone.word != "" && !t.zone.space ==> IsZ(t.zone.word) && t.clock.Some? && t.meridiem == NoMeridiem)
  }

  function ItemText(it: Item): string
    requires ItemOk(it)
  {
    match it
    case Num(n, width) => Padded(n, width)
    case Name(i, more) => MONTH_TEXT[i] + more
  }

  /** The items with gaps between them, and then the rest. */
  function DayText(items: seq<Item>, gap: char, rest: string): string
    requires ItemsOk(items)
  {
    ItemText(items[0]) + (if |items| == 1 then rest else [gap] + DayText(items[1..], gap, rest))
  }

  function SecondsText(s: Seconds, rest: string): string {
    match s
    case NoSeconds => rest
    case Whole(n, width) => ":" + (Padded(n, width) + rest)
    case Fractional(n, width, digits) => ":" + (Padded(n, width) + ("." + (digits + rest)))
  }

  function ClockPartText(c: Clock, rest: string): string {
    Padded(c.h, c.hw) + (":" + (Padded(c.m, c.mw) + SecondsText(c.seconds, rest)))
  }

  function MeridiemText(m: Meridiem, rest: string): string {
    match m
    case NoMeridiem => rest
    case AM => " " + ("AM" + rest)
    case PM => " " + ("PM" + rest)
  }

  function ShiftText(f: Shift): string {
    match f
    case NoShift => ""
    case Hours(neg, h, width) => [if neg then '-' else '+'] + (Padded(h, width) + "")
    case Together(neg, h, m, width) => [if neg then '-' else '+'] + (Padded(h * 100 + m, width) + "")
    case Apart(neg, h, hw, m, mw) => [if neg then '-' else '+'] + (Padded(h, hw) + (":" + (Padded(m, mw) + "")))
  }

  function WordText(z: ZonePart): string {
    if z.word == "" then ShiftText(z.shift) else z.word + ShiftText(z.shift)
  }

  function ZonePartText(z: ZonePart): string {
    if z.space then " " + WordText(z) else WordText(z)
  }

  function EndingText(t: Ending, gap: char): string {
    match t.clock
    case None => ZonePartText(t.zone)
    case Some(c) => [gap] + ClockPartText(c, MeridiemText(t.meridiem, ZonePartText(t.zone)))
  }

  function Text(items: seq<Item>, gap: char, t: Ending): string
    requires ItemsOk(items)
  {
    DayText(items, gap, EndingText(t, gap))
  }

  // ---------------------------------------------------------------------------------------------
  // What they mean

  /** A year below 50 is of this century, one from 50 to 99 of the last. */
  function Century(y: nat): nat {
    if y < 50 then 2000 + y else if y < 100 then 1900 + y else y
  }

  /** PM adds 12 to an hour before noon; AM changes nothing, so that 12 AM is noon. */
  function HourOf(t: Ending): nat {
    match t.clock
    case None => 0
    case Some(c) => if t.meridiem == PM && c.h < 12 then c.h + 12 else c.h
  }

  function MinuteOf(t: Ending): nat {
    match t.clock
    case None => 0
    case Some(c) => c.m
  }

  function SecondOf(t: Ending): nat {
    if t.clock == None || t.clock.value.seconds.NoSeconds? then 0 else t.clock.value.seconds.s
  }

  /** The first three digits of the fraction. */
  function MillisecondOf(t: Ending): nat
    requires EndingOk(t)
  {
    if t.clock.Some? && t.clock.value.seconds.Fractional? then
      FirstThreeIs(t.clock.value.seconds.digits);
      Decimal(FirstThree(t.clock.value.seconds.digits))
    else 0
  }

  function ShiftHours(f: Shift): nat {
    if f.NoShift? then 0 else f.h
  }

  function ShiftMinutes(f: Shift): nat {
    if f.Together? || f.Apart? then f.m else 0
  }

  /** Seconds from UTC; none, so the local zone, if there is neither a word nor an offset. */
  function OffsetOf(t: Ending): int {
    if t.zone.shift == NoShift then if t.zone.word == "" then INT_MAX else 0
    else
      var seconds := ShiftHours(t.zone.shift) * 3600 + ShiftMinutes(t.zone.shift) * 60;
      if t.zone.shift.negative then -seconds else seconds
  }

  predicate IsTimeOfDay(h: nat, m: nat, s: nat, ms: nat) {
    (h <= 23 && m <= 59 && s <= 59) || (h == 24 && m == 0 && s == 0 && ms == 0)
  }

  /** The date with that day and what the ending says, or a refusal where it is no time or no zone. */
  function Meaning(year: int, mon: nat, day: nat, t: Ending): Outcome<Fields>
    requires EndingOk(t)
  {
    if IsTimeOfDay(HourOf(t), MinuteOf(t), SecondOf(t), MillisecondOf(t))
       && ShiftHours(t.zone.shift) <= 24 && ShiftMinutes(t.zone.shift) <= 59
    then Accept(Fields(year, mon - 1, day, HourOf(t), MinuteOf(t), SecondOf(t), MillisecondOf(t), OffsetOf(t)))
    else Reject
  }

  // ---------------------------------------------------------------------------------------------
  // Tokens

  function GapToken(c: char): DateUnit {
    if c == ' ' || c == '\t' then Space else Unknown
  }

  lemma LexGap(c: char, rest: string)
    requires IsGap(c)
    ensures Lex([c] + rest) == [GapToken(c)] + Lex(rest)
  {
    hide Lex;
    LexStep([c] + rest);
    assert ([c] + rest)[1..] == rest;
  }

  function ItemToken(it: Item): DateUnit {
    match it
    case Num(n, width) => Number(n, |Padded(n, width)|)
    case Name(i, _) => Month(i + 1)
  }

  function DayTokens(items: seq<Item>, gap: char, rest: Tokens): Tokens
    requires items != []
  {
    [ItemToken(items[0])] + (if |items| == 1 then rest else [GapToken(gap)] + DayTokens(items[1..], gap, rest))
  }

  lemma {:induction false} MoreLetters(w: string, more: string, n: nat)
    requires AllAlpha(w) && n <= |w|
    ensures Letters(w + more, n) == Letters(w, n)
    decreases n
  {
    if n > 0 {
      assert (w + more)[1..] == w[1..] + more;
      MoreLetters(w[1..], more, n - 1);
    }
  }

  lemma LexItem(it: Item, rest: string)
    requires ItemOk(it) && !StartsDigit(rest) && !StartsAlpha(rest)
    ensures Lex(ItemText(it) + rest) == [ItemToken(it)] + Lex(rest)
  {
    hide Lex, Padded, Letters, KeyWord;
    match it {
      case Num(n, width) => LexNumber(n, width, rest);
      case Name(i, more) =>
        MonthWord(i);
        assert |MONTH_TEXT[i]| == 3;
        MoreLetters(MONTH_TEXT[i], more, 3);
        LexWord(MONTH_TEXT[i] + more, rest);
    }
  }

  lemma {:induction false} LexDay(items: seq<Item>, gap: char, rest: string)
    requires ItemsOk(items) && IsGap(gap) && !StartsDigit(rest) && !StartsAlpha(rest)
    ensures Lex(DayText(items, gap, rest)) == DayTokens(items, gap, Lex(rest))
    decreases |items|
  {
    hide Lex, ItemText, ItemToken, GapToken;
    if |items| == 1 {
      LexItem(items[0], rest);
    } else {
      var more := DayText(items[1..], gap, rest);
      LexDay(items[1..], gap, rest);
      LexGap(gap, more);
      LexItem(items[0], [gap] + more);
    }
  }

  /** The token of a fraction, whose milliseconds are its first three digits. */
  lemma LexFractionDigits(ds: string, rest: string) returns (value: nat, len: nat)
    requires ds != [] && AllDigits(ds) && Count(ds, 0).1 <= 12 && !StartsDigit(rest)
    ensures Lex(ds + rest) == [Number(value, len)] + Lex(rest)
    ensures AllDigits(FirstThree(ds)) && NormMs(value, len) == Some(Decimal(FirstThree(ds)))
  {
    hide Lex, Count, Decimal, SkipDigits, NormMs, FirstThree;
    value, len := Count(ds, 0).0, Count(ds, 0).1;
    DecimalEmpty();
    CountFacts(ds, 0);
    CountIsDecimal([], ds);
    CountOver(ds, rest, 0);
    SkipDigitsOver(ds, rest);
    assert (ds + rest)[0] == ds[0];
    LexStep(ds + rest);
    var counted := ds[..len];
    assert [] + ds[..len] == counted;
    CountedEnough(ds);
    MillisecondsExactly(counted);
    FirstThreeIs(ds);
    FirstThreeCounted(ds, len);
  }

  lemma {:induction false} CountOver(ds: string, rest: string, num: nat)
    requires AllDigits(ds) && !StartsDigit(rest)
    ensures Count(ds + rest, num) == Count(ds, num)
    decreases |ds|
  {
    if ds == [] {
      assert ds + rest == rest;
    } else {
      var next := num * 10 + Digit(ds[0]);
      assert (ds + rest)[1..] == ds[1..] + rest;
      if next <= MAX_DECIMAL {
        CountOver(ds[1..], rest, next);
      }
    }
  }

  /** Digits are left uncounted only behind the ninth. */
  lemma CountedEnough(ds: string)
    requires AllDigits(ds) && ds != []
    ensures 0 < Count(ds, 0).1 <= |ds| && (Count(ds, 0).1 < |ds| ==> Count(ds, 0).1 >= 3)
  {
    hide Count, Decimal;
    var k := Count(ds, 0).1;
    DecimalEmpty();
    CountFacts(ds, 0);
    CountIsDecimal([], ds);
    assert [] + ds[..k] == ds[..k];
    if k < |ds| {
      assert ds[k..][0] == ds[k];
      if k < 3 {
        SmallDecimal(ds[..k]);
      }
    }
  }

  lemma SmallDecimal(ds: string)
    requires AllDigits(ds) && |ds| <= 2
    ensures Decimal(ds) <= 99
  {
    if |ds| == 2 {
      assert ds[..1][..0] == [];
    }
  }

  lemma FirstThreeCounted(ds: string, k: nat)
    requires AllDigits(ds) && 0 < k <= |ds| && (k < |ds| ==> k >= 3)
    ensures FirstThree(ds[..k]) == FirstThree(ds)
  {
    if k == |ds| {
      assert ds[..k] == ds;
    } else {
      assert ds[..k][..3] == ds[..3];
    }
  }

  // ---------------------------------------------------------------------------------------------
  // The legacy path on the day

  const START: Legacy := Legacy([], INT_MAX, [], LOCAL, false)

  function Finished(r: Outcome<Legacy>): Outcome<Fields> {
    match r
    case Reject => Reject
    case Undefined => Undefined
    case Accept(st) => AllFields(st.day, st.month, false, st.time, st.zone)
  }

  function Numbers(items: seq<Item>): seq<int> {
    if items == [] then [] else (if items[0].Num? then [items[0].n] else []) + Numbers(items[1..])
  }

  /** The last month named, or else `month`. */
  function MonthOf(items: seq<Item>, month: int): int {
    if items == [] then month else MonthOf(items[1..], if items[0].Name? then items[0].i + 1 else month)
  }

  predicate OpensNoPart(rest: Tokens) {
    Head(rest) != Symbol(':')
  }

  /** The state after an item; none where a fourth number is refused. */
  function ItemRead(it: Item, st: Legacy): Option<Legacy> {
    if it.Name? then Some(st.(month := it.i + 1))
    else if |st.day| >= 3 then None
    else Some(st.(day := st.day + [it.n], hasNumber := true))
  }

  function DayRead(items: seq<Item>, st: Legacy): Option<Legacy> {
    if items == [] then Some(st)
    else
      match ItemRead(items[0], st)
      case None => None
      case Some(next) => DayRead(items[1..], next)
  }

  function Resumed(rest: Tokens, st: Option<Legacy>): Outcome<Legacy> {
    match st
    case None => Reject
    case Some(next) => LegacyDates(rest, next)
  }

  lemma {:induction false} DayReadIs(items: seq<Item>, st: Legacy)
    requires |st.day| <= 3
    ensures DayRead(items, st) ==
            if |st.day| + |Numbers(items)| > 3 then None
            else Some(st.(day := st.day + Numbers(items), month := MonthOf(items, st.month),
                          hasNumber := st.hasNumber || Numbers(items) != []))
    decreases |items|
  {
    if items == [] {
      assert st.day + [] == st.day;
    } else {
      var next := ItemRead(items[0], st);
      if next.Some? {
        DayReadIs(items[1..], next.value);
        if items[0].Num? {
          assert st.day + [items[0].n] + Numbers(items[1..]) == st.day + Numbers(items);
        } else {
          assert Numbers(items) == Numbers(items[1..]);
        }
      }
    }
  }

  lemma TakeItem(it: Item, rest: Tokens, st: Legacy)
    requires st.time == [] && OpensNoPart(rest)
    ensures LegacyDates([ItemToken(it)] + rest, st) == Resumed(rest, ItemRead(it, st))
  {
    hide LegacyDates, Padded;
    LegacyUnfold([ItemToken(it)] + rest, st);
    assert ([ItemToken(it)] + rest)[1..] == rest;
  }

  lemma TakeGap(gap: char, rest: Tokens, st: Legacy)
    ensures LegacyDates([GapToken(gap)] + rest, st) == LegacyDates(rest, st)
  {
    hide LegacyDates;
    Take(GapToken(gap), rest, st);
  }

  lemma {:induction false} TakeDay(items: seq<Item>, gap: char, rest: Tokens, st: Legacy)
    requires items != [] && st.time == [] && OpensNoPart(rest)
    ensures LegacyDates(DayTokens(items, gap, rest), st) == Resumed(rest, DayRead(items, st))
    decreases |items|
  {
    hide LegacyDates, ItemToken, GapToken, OpensNoPart;
    var next := ItemRead(items[0], st);
    if |items| == 1 {
      assert items[1..] == [];
      TakeItem(items[0], rest, st);
    } else {
      var more := DayTokens(items[1..], gap, rest);
      GapOpensNothing(gap, more);
      TakeItem(items[0], [GapToken(gap)] + more, st);
      if next.Some? {
        TakeGap(gap, more, next.value);
        TakeDay(items[1..], gap, rest, next.value);
      }
    }
  }

  lemma GapOpensNothing(gap: char, rest: Tokens)
    ensures OpensNoPart([GapToken(gap)] + rest)
  {
  }

  /** A year of four digits that nothing follows is an ISO date. */
  predicate IsoYear(items: seq<Item>) {
    |items| == 1 && items[0].Num? && |Padded(items[0].n, items[0].width)| == 4
  }

  /** The failed attempt at an ISO date makes no difference to such texts. */
  lemma DayIsLegacy(items: seq<Item>, gap: char, rest: Tokens)
    requires items != [] && OpensNoPart(rest)
    requires IsoYear(items) ==> Head(rest) != Symbol('-') && !Head(rest).TimeFlag? && !Head(rest).StringEnd?
    ensures ParseTokens(DayTokens(items, gap, rest)) == Finished(LegacyDates(DayTokens(items, gap, rest), START))
  {
    hide LegacyDates, Padded, AllFields;
    var more := if |items| == 1 then rest else [GapToken(gap)] + DayTokens(items[1..], gap, rest);
    var ts := [ItemToken(items[0])] + more;
    assert Tail(ts) == more;
    if items[0].Num? && |Padded(items[0].n, items[0].width)| == 4 {
      TakeItem(items[0], more, START);
      assert START.day + [items[0].n] == [items[0].n];
    } else {
      assert IsoDate(ts) == (false, ts, []);
    }
  }

  // ---------------------------------------------------------------------------------------------
  // The legacy path on the clock

  function SecondsTokens(s: Seconds, value: nat, len: nat, rest: Tokens): Tokens {
    match s
    case NoSeconds => rest
    case Whole(n, width) => [Symbol(':')] + ([Number(n, |Padded(n, width)|)] + rest)
    case Fractional(n, width, _) =>
      [Symbol(':')] + ([Number(n, |Padded(n, width)|)] + ([Symbol('.')] + ([Number(value, len)] + rest)))
  }

  function ClockPartTokens(c: Clock, value: nat, len: nat, rest: Tokens): Tokens {
    [Number(c.h, |Padded(c.h, c.hw)|)] + ([Symbol(':')] + ([Number(c.m, |Padded(c.m, c.mw)|)] +
      SecondsTokens(c.seconds, value, len, rest)))
  }

  function MsOf(c: Clock): nat
    requires ClockOk(c)
  {
    if c.seconds.Fractional? then FirstThreeIs(c.seconds.digits); Decimal(FirstThree(c.seconds.digits)) else 0
  }

  lemma LexClockPart(c: Clock, rest: string) returns (value: nat, len: nat)
    requires ClockOk(c) && !StartsDigit(rest)
    ensures Lex(ClockPartText(c, rest)) == ClockPartTokens(c, value, len, Lex(rest))
    ensures c.seconds.Fractional? ==> NormMs(value, len) == Some(MsOf(c))
  {
    hide Lex, Padded, NormMs, Decimal, FirstThree, Count;
    value, len := 0, 0;
    var text := SecondsText(c.seconds, rest);
    match c.seconds {
      case NoSeconds =>
      case Whole(s, width) =>
        LexNumber(s, width, rest);
        LexMark(':', Padded(s, width) + rest);
      case Fractional(s, width, digits) =>
        value, len := LexFractionDigits(digits, rest);
        LexMark('.', digits + rest);
        LexNumber(s, width, "." + (digits + rest));
        LexMark(':', Padded(s, width) + ("." + (digits + rest)));
    }
    LexNumber(c.m, c.mw, text);
    LexMark(':', Padded(c.m, c.mw) + text);
    LexNumber(c.h, c.hw, ":" + (Padded(c.m, c.mw) + text));
  }

  function ClockNumbers(c: Clock): seq<int>
    requires ClockOk(c)
  {
    match c.seconds
    case NoSeconds => [c.h, c.m]
    case Whole(s, _) => [c.h, c.m, s]
    case Fractional(s, _, _) => [c.h, c.m, s, MsOf(c)]
  }

  /** The last number of a clock without a fraction. */
  lemma TakeLast(n: int, len: nat, rest: Tokens, st: Legacy)
    requires (|st.time| == 1 || |st.time| == 2) && 0 <= n <= 59 && Head(rest).IsValidFinallyTime()
    ensures LegacyDates([Number(n, len)] + rest, st)
         == LegacyDates(rest, st.(time := st.time + [n], hasNumber := true))
  {
    hide LegacyDates;
    Take(Number(n, len), rest, st);
  }

  lemma TakeFraction(n: int, len: nat, value: nat, digits: nat, rest: Tokens, st: Legacy)
    requires |st.time| == 2 && 0 <= n <= 59 && Head(rest).IsValidFinallyTime() && NormMs(value, digits).Some?
    ensures LegacyDates([Number(n, len)] + ([Symbol('.')] + ([Number(value, digits)] + rest)), st)
         == LegacyDates(rest, st.(time := st.time + [n] + [NormMs(value, digits).value], hasNumber := true))
  {
    hide LegacyDates, NormMs;
    First(Number(value, digits), rest);
    First(Symbol('.'), [Number(value, digits)] + rest);
    Take(Number(n, len), [Symbol('.')] + ([Number(value, digits)] + rest), st);
  }

  lemma TakeWholeClock(c: Clock, value: nat, len: nat, rest: Tokens, st: Legacy)
    requires ClockOk(c) && st.time == [] && Head(rest).IsValidFinallyTime()
    requires c.seconds.Fractional? ==> NormMs(value, len) == Some(MsOf(c))
    ensures LegacyDates(ClockPartTokens(c, value, len, rest), st)
         == LegacyDates(rest, st.(time := ClockNumbers(c), hasNumber := true))
  {
    hide LegacyDates, Padded, NormMs, MsOf, Count;
    var hl, ml := |Padded(c.h, c.hw)|, |Padded(c.m, c.mw)|;
    var one := st.(time := st.time + [c.h], hasNumber := true);
    var two := one.(time := one.time + [c.m]);
    TakeClockPart(c.h, hl, Number(c.m, ml), SecondsTokens(c.seconds, value, len, rest), st);
    match c.seconds {
      case NoSeconds =>
        TakeLast(c.m, ml, rest, one);
        assert one.time + [c.m] == [c.h, c.m];
      case Whole(s, width) =>
        TakeClockPart(c.m, ml, Number(s, |Padded(s, width)|), rest, one);
        TakeLast(s, |Padded(s, width)|, rest, two);
        assert two.time + [s] == [c.h, c.m, s];
      case Fractional(s, width, _) =>
        var sl := |Padded(s, width)|;
        TakeClockPart(c.m, ml, Number(s, sl), [Symbol('.')] + ([Number(value, len)] + rest), one);
        TakeFraction(s, sl, value, len, rest, two);
        assert two.time + [s] + [MsOf(c)] == [c.h, c.m, s, MsOf(c)];
    }
  }

  function MeridiemTokens(m: Meridiem, rest: Tokens): Tokens {
    match m
    case NoMeridiem => rest
    case AM => [Space] + ([AmPm(0)] + rest)
    case PM => [Space] + ([AmPm(12)] + rest)
  }

  lemma TwoLetters(a: char, b: char)
    requires IsAlpha(a) && IsAlpha(b)
    ensures Letters([a, b], 3) == [GetLower(a), GetLower(b)]
  {
    assert [a, b][1..] == [b] && [b][1..] == [];
    assert Letters([b], 2) == [GetLower(b)];
  }

  lemma LexMeridiem(m: Meridiem, rest: string)
    requires !StartsAlpha(rest)
    ensures Lex(MeridiemText(m, rest)) == MeridiemTokens(m, Lex(rest))
  {
    hide Lex, Letters;
    TwoLetters('A', 'M');
    TwoLetters('P', 'M');
    assert "AM" == ['A', 'M'] && "PM" == ['P', 'M'];
    LexWord("AM", rest);
    LexWord("PM", rest);
    LexSpace("AM" + rest);
    LexSpace("PM" + rest);
  }

  /** The hour once AM or PM is read. */
  function FixedHour(h: int, m: Meridiem): int {
    if m == PM && h < 12 then h + 12 else h
  }

  lemma TakeMeridiem(m: Meridiem, rest: Tokens, st: Legacy)
    requires st.time != []
    ensures LegacyDates(MeridiemTokens(m, rest), st)
         == LegacyDates(rest, st.(time := st.time[0 := FixedHour(st.time[0], m)]))
  {
    hide LegacyDates;
    var fixed := st.(time := st.time[0 := FixedHour(st.time[0], m)]);
    assert FixedHour(st.time[0], m) == st.time[0] ==> fixed == st;
    if m != NoMeridiem {
      var word := AmPm(if m == AM then 0 else 12);
      TakeSpace([word] + rest, st);
      Take(word, rest, st);
    }
  }

  // ---------------------------------------------------------------------------------------------
  // The legacy path on the zone

  function Mark(negative: bool): DateUnit {
    Symbol(if negative then '-' else '+')
  }

  function ShiftTokens(f: Shift): Tokens {
    match f
    case NoShift => []
    case Hours(neg, h, width) => [Mark(neg)] + [Number(h, |Padded(h, width)|)]
    case Together(neg, h, m, width) => [Mark(neg)] + [Number(h * 100 + m, |Padded(h * 100 + m, width)|)]
    case Apart(neg, h, hw, m, mw) =>
      [Mark(neg)] + ([Number(h, |Padded(h, hw)|)] + ([Symbol(':')] + [Number(m, |Padded(m, mw)|)]))
  }

  lemma LexShift(f: Shift)
    requires ShiftOk(f)
    ensures Lex(ShiftText(f)) == ShiftTokens(f)
    ensures !StartsAlpha(ShiftText(f)) && !StartsDigit(ShiftText(f))
  {
    hide Lex, Padded;
    LexEmpty();
    match f {
      case NoShift =>
      case Hours(neg, h, width) =>
        LexNumber(h, width, "");
        LexMark(if neg then '-' else '+', Padded(h, width) + "");
      case Together(neg, h, m, width) =>
        LexNumber(h * 100 + m, width, "");
        LexMark(if neg then '-' else '+', Padded(h * 100 + m, width) + "");
      case Apart(neg, h, hw, m, mw) =>
        LexNumber(m, mw, "");
        LexMark(':', Padded(m, mw) + "");
        LexNumber(h, hw, ":" + (Padded(m, mw) + ""));
        LexMark(if neg then '-' else '+', Padded(h, hw) + (":" + (Padded(m, mw) + "")));
    }
  }

  function WordToken(w: string): DateUnit {
    ZoneWord(if IsZ(w) then 0 else 1)
  }

  lemma ZoneWordToken(w: string)
    requires IsZoneWord(w)
    ensures w != [] && AllAlpha(w) && KeyWord(Letters(w, 3)) == WordToken(w)
  {
    hide Letters;
    if IsZ(w) {
      OneLetter(w[0]);
      assert w == [w[0]];
    } else {
      ThreeLetters(w[0], w[1], w[2]);
      assert w == [w[0], w[1], w[2]];
    }
  }

  lemma OneLetter(a: char)
    requires IsAlpha(a)
    ensures Letters([a], 3) == [GetLower(a)]
  {
    assert [a][1..] == [];
  }

  function ZonePartTokens(z: ZonePart): Tokens {
    var shift := ShiftTokens(z.shift);
    var word := if z.word == "" then shift else [WordToken(z.word)] + shift;
    if z.space then [Space] + word else word
  }

  lemma LexZonePart(z: ZonePart)
    requires ZoneTextOk(z)
    ensures Lex(ZonePartText(z)) == ZonePartTokens(z)
    ensures !StartsDigit(ZonePartText(z)) && (z.space || z.word == "" ==> !StartsAlpha(ZonePartText(z)))
  {
    hide Lex, ShiftText, ShiftTokens, KeyWord, Letters;
    LexShift(z.shift);
    if z.word != "" {
      ZoneWordToken(z.word);
      LexWord(z.word, ShiftText(z.shift));
      assert (z.word + ShiftText(z.shift))[0] == z.word[0];
    }
    LexSpace(WordText(z));
  }

  function ZoneRead(z: ZonePart): Zone {
    if z.shift == NoShift then if z.word == "" then LOCAL else UTC
    else Zone(if z.shift.negative then -1 else 1, ShiftHours(z.shift), ShiftMinutes(z.shift))
  }

  lemma ShiftLengths(f: Shift)
    requires ShiftOk(f)
    ensures f.Hours? ==> |Padded(f.h, f.width)| == 1 || |Padded(f.h, f.width)| == 2
    ensures f.Together? ==> |Padded(f.h * 100 + f.m, f.width)| == 3 || |Padded(f.h * 100 + f.m, f.width)| == 4
  {
    match f {
      case Hours(_, h, width) =>
        PaddedWidth(h, width, 2);
      case Together(_, h, m, width) =>
        PaddedFacts(h * 100 + m, width);
        assert Pow10(3) == 1000 && Pow10(4) == 10000;
      case _ =>
    }
  }

  /** No longer than a width that the number fits in. */
  lemma {:induction false} PaddedWidth(n: nat, width: nat, most: nat)
    requires width <= most && most >= 1 && n < Pow10(most)
    ensures 1 <= |Padded(n, width)| <= most
    decreases n + width
  {
    if !(n < 10 && width <= 1) {
      assert Pow10(most) == 10 * Pow10(most - 1) && Pow10(0) == 1;
      PaddedWidth(n / 10, if width > 0 then width - 1 else 0, most - 1);
    }
  }

  lemma TakeShift(f: Shift, st: Legacy)
    requires ShiftOk(f) && (f != NoShift ==> st.time != [] || st.zone == UTC)
    ensures LegacyDates(ShiftTokens(f), st) ==
            Accept(if f == NoShift then st
                   else st.(zone := Zone(if f.negative then -1 else 1, ShiftHours(f), ShiftMinutes(f))))
  {
    hide LegacyDates, Padded;
    LegacyUnfold([], st);
    if f != NoShift {
      ShiftLengths(f);
      var next := st.(zone := Zone(if f.negative then -1 else 1, ShiftHours(f), ShiftMinutes(f)));
      LegacyUnfold([], next);
      var rest := ShiftTokens(f)[1..];
      assert ShiftTokens(f) == [Mark(f.negative)] + rest;
      match f {
        case Hours(_, h, width) =>
          assert rest == [Number(h, |Padded(h, width)|)] + [];
          First(Number(h, |Padded(h, width)|), []);
          Take(Mark(f.negative), rest, st);
        case Together(_, h, m, width) =>
          assert rest == [Number(h * 100 + m, |Padded(h * 100 + m, width)|)] + [];
          First(Number(h * 100 + m, |Padded(h * 100 + m, width)|), []);
          assert (h * 100 + m) / 100 == h && (h * 100 + m) % 100 == m;
          Take(Mark(f.negative), rest, st);
        case Apart(_, h, hw, m, mw) =>
          var minutes := [Number(m, |Padded(m, mw)|)] + [];
          assert rest == [Number(h, |Padded(h, hw)|)] + ([Symbol(':')] + minutes);
          First(Number(m, |Padded(m, mw)|), []);
          First(Symbol(':'), minutes);
          First(Number(h, |Padded(h, hw)|), [Symbol(':')] + minutes);
          Take(Mark(f.negative), rest, st);
      }
    }
  }

  lemma TakeZone(z: ZonePart, st: Legacy)
    requires ZoneTextOk(z) && st.zone == LOCAL && st.hasNumber
    requires z.shift != NoShift ==> st.time != [] || z.word != ""
    ensures LegacyDates(ZonePartTokens(z), st) == Accept(st.(zone := ZoneRead(z)))
  {
    hide LegacyDates, ShiftTokens, ShiftOk;
    var shift := ShiftTokens(z.shift);
    if z.word == "" {
      TakeSpace(shift, st);
      TakeShift(z.shift, st);
    } else {
      TakeSpace([WordToken(z.word)] + shift, st);
      Take(WordToken(z.word), shift, st);
      TakeShift(z.shift, st.(zone := UTC));
    }
  }

  // ---------------------------------------------------------------------------------------------
  // The whole text

  function TimeRead(t: Ending): seq<int>
    requires EndingOk(t)
  {
    if t.clock == None then [] else var ns := ClockNumbers(t.clock.value); ns[0 := FixedHour(ns[0], t.meridiem)]
  }

  /** The clock of a text, its tokens and what the legacy path makes of them. */
  lemma ReadEnding(t: Ending, gap: char) returns (ts: Tokens)
    requires EndingOk(t) && IsGap(gap)
    ensures Lex(EndingText(t, gap)) == ts && OpensNoPart(ts)
    ensures !StartsDigit(EndingText(t, gap)) && !StartsAlpha(EndingText(t, gap))
    ensures Head(ts) != Symbol('-') && !Head(ts).TimeFlag? && (t != NOTHING ==> !Head(ts).StringEnd?)
    ensures forall st: Legacy :: st.time == [] && st.zone == LOCAL && st.hasNumber ==>
              LegacyDates(ts, st) == Accept(st.(time := TimeRead(t), zone := ZoneRead(t.zone)))
  {
    hide Lex, LegacyDates, Padded, ClockOk, ClockNumbers, NormMs, MsOf, FixedHour, ZoneRead;
    LexZonePart(t.zone);
    var zone := ZonePartTokens(t.zone);
    ZoneHeads(t.zone);
    if t.clock == None {
      ts := zone;
      forall st: Legacy | st.time == [] && st.zone == LOCAL && st.hasNumber
        ensures LegacyDates(ts, st) == Accept(st.(time := TimeRead(t), zone := ZoneRead(t.zone)))
      {
        TakeZone(t.zone, st);
      }
    } else {
      var c := t.clock.value;
      var rest := MeridiemText(t.meridiem, ZonePartText(t.zone));
      LexMeridiemZone(t);
      var value, len := LexClockPart(c, rest);
      var clock := ClockPartTokens(c, value, len, MeridiemTokens(t.meridiem, zone));
      LexGap(gap, ClockPartText(c, rest));
      ts := [GapToken(gap)] + clock;
      forall st: Legacy | st.time == [] && st.zone == LOCAL && st.hasNumber
        ensures LegacyDates(ts, st) == Accept(st.(time := TimeRead(t), zone := ZoneRead(t.zone)))
      {
        TakeGap(gap, clock, st);
        TakeEnding(t, value, len, st);
      }
    }
  }

  lemma ZoneHeads(z: ZonePart)
    requires ZoneTextOk(z)
    ensures OpensNoPart(ZonePartTokens(z)) && !Head(ZonePartTokens(z)).TimeFlag?
    ensures z.space || z.word != "" || z.shift == NoShift ==> Head(ZonePartTokens(z)) != Symbol('-')
    ensures z != ZonePart(false, "", NoShift) ==> !Head(ZonePartTokens(z)).StringEnd?
    ensures z.space || z.word == "" || IsZ(z.word) ==> Head(ZonePartTokens(z)).IsValidFinallyTime()
  {
  }

  lemma LexMeridiemZone(t: Ending)
    requires EndingOk(t) && t.clock.Some?
    ensures var rest := MeridiemText(t.meridiem, ZonePartText(t.zone));
            Lex(rest) == MeridiemTokens(t.meridiem, ZonePartTokens(t.zone)) && !StartsDigit(rest)
  {
    hide Lex, ZonePartText, ZonePartTokens;
    LexZonePart(t.zone);
    if t.meridiem != NoMeridiem {
      LexMeridiem(t.meridiem, ZonePartText(t.zone));
    }
  }

  lemma TakeEnding(t: Ending, value: nat, len: nat, st: Legacy)
    requires EndingOk(t) && t.clock.Some? && st.time == [] && st.zone == LOCAL
    requires t.clock.value.seconds.Fractional? ==> NormMs(value, len) == Some(MsOf(t.clock.value))
    ensures LegacyDates(ClockPartTokens(t.clock.value, value, len, MeridiemTokens(t.meridiem, ZonePartTokens(t.zone))), st)
         == Accept(st.(time := TimeRead(t), zone := ZoneRead(t.zone), hasNumber := true))
  {
    hide LegacyDates, ZonePartTokens, ClockPartTokens, MsOf, NormMs, ZoneRead;
    var c, zone := t.clock.value, ZonePartTokens(t.zone);
    ZoneHeads(t.zone);
    First(Space, [AmPm(0)] + zone);
    First(Space, [AmPm(12)] + zone);
    TakeWholeClock(c, value, len, MeridiemTokens(t.meridiem, zone), st);
    var one := st.(time := ClockNumbers(c), hasNumber := true);
    TakeMeridiem(t.meridiem, zone, one);
    TakeZone(t.zone, one.(time := TimeRead(t)));
  }

  /** Numbers, month, time and zone of a text, whatever they are. */
  lemma Parsed(items: seq<Item>, gap: char, t: Ending)
    requires ItemsOk(items) && IsGap(gap) && EndingOk(t) && (IsoYear(items) ==> t != NOTHING)
    requires Numbers(items) != []
    ensures ParseText(Text(items, gap, t)) ==
            if |Numbers(items)| > 3 then Reject
            else AllFields(Numbers(items), MonthOf(items, INT_MAX), false, TimeRead(t), ZoneRead(t.zone))
  {
    hide Lex, LegacyDates, ParseTokens, AllFields, DayTokens, DayRead, EndingText, TimeRead, ZoneRead, EndingOk, ItemOk;
    var ts := ReadEnding(t, gap);
    LexDay(items, gap, EndingText(t, gap));
    DayIsLegacy(items, gap, ts);
    TakeDay(items, gap, ts, START);
    DayReadIs(items, START);
    assert START.day + Numbers(items) == Numbers(items);
  }

  /** The time and the zone that were read mean what the ending says. */
  lemma EndingMeans(data: seq<int>, month: int, t: Ending)
    requires EndingOk(t)
    ensures AllFields(data, month, false, TimeRead(t), ZoneRead(t.zone)) ==
            match DayFields(data, month, false)
            case None => Reject
            case Some(v) => if v.1 >= 0 && v.2 >= 0 then Meaning(v.0, v.1 + 1, v.2, t) else Reject
  {
    hide DayFields;
    DayFieldsRange(data, month);
    TimeMeans(t);
    ZoneMeans(t);
    hide TimeRead, ZoneRead, EndingOk, HourOf, MinuteOf, SecondOf, MillisecondOf, OffsetOf, TimeIsValid, ZoneSeconds,
         IsTimeOfDay, TimeAt, ShiftHours, ShiftMinutes;
  }

  lemma DayFieldsRange(data: seq<int>, month: int)
    ensures DayFields(data, month, false).Some? ==>
              DayFields(data, month, false).value.1 >= 0 && DayFields(data, month, false).value.2 >= 0
  {
  }

  lemma TimeMeans(t: Ending)
    requires EndingOk(t)
    ensures var time := TimeRead(t);
            && TimeAt(time, 0) == HourOf(t) && TimeAt(time, 1) == MinuteOf(t) && TimeAt(time, 2) == SecondOf(t)
            && TimeAt(time, 3) == MillisecondOf(t)
            && (TimeIsValid(time) <==> IsTimeOfDay(HourOf(t), MinuteOf(t), SecondOf(t), MillisecondOf(t)))
  {
    hide Decimal, FirstThree, Count;
    MillisecondRange(t);
  }

  lemma MillisecondRange(t: Ending)
    requires EndingOk(t)
    ensures MillisecondOf(t) <= 999
  {
    if t.clock.Some? && t.clock.value.seconds.Fractional? {
      var ds := t.clock.value.seconds.digits;
      FirstThreeIs(ds);
      ThreeDigitsSmall(FirstThree(ds));
    }
  }

  lemma ThreeDigitsSmall(ds: string)
    requires AllDigits(ds) && |ds| == 3
    ensures Decimal(ds) <= 999
  {
    SmallDecimal(ds[..2]);
  }

  lemma ZoneMeans(t: Ending)
    requires EndingOk(t)
    ensures ZoneSeconds(ZoneRead(t.zone)) ==
            if ShiftHours(t.zone.shift) <= 24 && ShiftMinutes(t.zone.shift) <= 59 then Some(OffsetOf(t)) else None
  {
  }

  // ---------------------------------------------------------------------------------------------
  // Which number is what

  predicate Usual(items: seq<Item>, gap: char, t: Ending) {
    ItemsOk(items) && IsGap(gap) && EndingOk(t) && (IsoYear(items) ==> t != NOTHING)
  }

  lemma ParsedDay(items: seq<Item>, gap: char, t: Ending)
    requires Usual(items, gap, t) && Numbers(items) != []
    ensures ParseText(Text(items, gap, t)) ==
            if |Numbers(items)| > 3 then Reject
            else match DayFields(Numbers(items), MonthOf(items, INT_MAX), false)
                 case None => Reject
                 case Some(v) => if v.1 >= 0 && v.2 >= 0 then Meaning(v.0, v.1 + 1, v.2, t) else Reject
  {
    hide ParseText, Text, AllFields, DayFields, Meaning, Numbers, MonthOf, EndingOk;
    Parsed(items, gap, t);
    EndingMeans(Numbers(items), MonthOf(items, INT_MAX), t);
  }

  lemma {:induction false} PlainNumbers(items: seq<Item>)
    requires forall k :: 0 <= k < |items| ==> items[k].Num?
    ensures |Numbers(items)| == |items| && MonthOf(items, INT_MAX) == INT_MAX
    ensures forall k :: 0 <= k < |items| ==> Numbers(items)[k] == items[k].n
    decreases |items|
  {
    if items != [] {
      PlainNumbers(items[1..]);
    }
  }

  /** Three numbers: month, day and year when the first is a month; year, month and day when it is none and the third
      is a day; otherwise no date. */
  lemma ThreeNumbers(a: nat, aw: nat, b: nat, bw: nat, c: nat, cw: nat, gap: char, t: Ending)
    requires a <= MAX_DECIMAL && b <= MAX_DECIMAL && c <= MAX_DECIMAL && IsGap(gap) && EndingOk(t)
    ensures var r := ParseText(Text([Num(a, aw), Num(b, bw), Num(c, cw)], gap, t));
            && (1 <= a <= 12 ==> r == if 1 <= b <= 31 then Meaning(Century(c), a, b, t) else Reject)
            && (!(1 <= a <= 12) && 1 <= c <= 31 ==> r == if 1 <= b <= 12 then Meaning(Century(a), b, c, t) else Reject)
            && (!(1 <= a <= 12) && !(1 <= c <= 31) ==> r == Reject)
  {
    hide ParseText, Text, Meaning, EndingOk, Numbers, MonthOf;
    var items := [Num(a, aw), Num(b, bw), Num(c, cw)];
    PlainNumbers(items);
    assert Numbers(items) == [a, b, c];
    ParsedDay(items, gap, t);
  }

  /** Two numbers: year and month, on the first day. */
  lemma TwoNumbers(a: nat, aw: nat, b: nat, bw: nat, gap: char, t: Ending)
    requires a <= MAX_DECIMAL && b <= MAX_DECIMAL && IsGap(gap) && EndingOk(t)
    ensures ParseText(Text([Num(a, aw), Num(b, bw)], gap, t)) ==
            if 1 <= b <= 12 then Meaning(Century(a), b, 1, t) else Reject
  {
    hide ParseText, Text, Meaning, EndingOk, Numbers, MonthOf;
    var items := [Num(a, aw), Num(b, bw)];
    PlainNumbers(items);
    assert Numbers(items) == [a, b];
    ParsedDay(items, gap, t);
  }

  /** One number: a year, on its first day. */
  lemma OneNumber(a: nat, aw: nat, gap: char, t: Ending)
    requires Usual([Num(a, aw)], gap, t)
    ensures ParseText(Text([Num(a, aw)], gap, t)) == Meaning(Century(a), 1, 1, t)
  {
    hide ParseText, Text, Meaning, EndingOk, Numbers, MonthOf, Padded;
    assert ItemOk([Num(a, aw)][0]);
    PlainNumbers([Num(a, aw)]);
    assert Numbers([Num(a, aw)]) == [a];
    ParsedDay([Num(a, aw)], gap, t);
  }

  lemma {:induction false} NumbersNat(items: seq<Item>)
    ensures forall k :: 0 <= k < |Numbers(items)| ==> Numbers(items)[k] >= 0
    decreases |items|
  {
    if items != [] {
      NumbersNat(items[1..]);
    }
  }

  lemma {:induction false} MonthRange(items: seq<Item>, month: int)
    requires forall k :: 0 <= k < |items| ==> ItemOk(items[k])
    ensures MonthOf(items, month) == month || 1 <= MonthOf(items, month) <= 12
    decreases |items|
  {
    if items != [] {
      MonthRange(items[1..], if items[0].Name? then items[0].i + 1 else month);
    }
  }

  /** With a month name, wherever it stands: one number is the day, in year 2001; of two, the first is the day and the
      second the year, or the other way round when the first is no day; three are refused. */
  lemma NamedMonth(items: seq<Item>, gap: char, t: Ending)
    requires Usual(items, gap, t) && MonthOf(items, INT_MAX) != INT_MAX && Numbers(items) != []
    ensures 1 <= MonthOf(items, INT_MAX) <= 12 && forall k :: 0 <= k < |Numbers(items)| ==> Numbers(items)[k] >= 0
    ensures var r, mon, ns := ParseText(Text(items, gap, t)), MonthOf(items, INT_MAX), Numbers(items);
            && (|ns| == 1 ==> r == if 1 <= ns[0] <= 31 then Meaning(2001, mon, ns[0], t) else Reject)
            && (|ns| == 2 && 1 <= ns[0] <= 31 ==> r == Meaning(Century(ns[1]), mon, ns[0], t))
            && (|ns| == 2 && !(1 <= ns[0] <= 31) ==>
                  r == if 1 <= ns[1] <= 31 then Meaning(Century(ns[0]), mon, ns[1], t) else Reject)
            && (|ns| >= 3 ==> r == Reject)
  {
    hide ParseText, Text, Meaning, EndingOk, Numbers, MonthOf;
    MonthRange(items, INT_MAX);
    NumbersNat(items);
    ParsedDay(items, gap, t);
  }

  // ---------------------------------------------------------------------------------------------
  // Texts written out

  lemma OneItem(it: Item, gap: char, rest: string)
    requires ItemOk(it)
    ensures DayText([it], gap, rest) == ItemText(it) + rest
  {
  }

  lemma MoreItems(it: Item, items: seq<Item>, gap: char, rest: string)
    requires ItemOk(it) && ItemsOk(items)
    ensures ItemsOk([it] + items)
    ensures DayText([it] + items, gap, rest) == ItemText(it) + ([gap] + DayText(items, gap, rest))
  {
    assert ([it] + items)[1..] == items;
  }

  lemma ThreeItems(a: Item, b: Item, c: Item, gap: char, rest: string)
    requires ItemOk(a) && ItemOk(b) && ItemOk(c)
    ensures DayText([a, b, c], gap, rest) == ItemText(a) + ([gap] + (ItemText(b) + ([gap] + (ItemText(c) + rest))))
  {
    hide DayText, ItemText, ItemOk;
    OneItem(c, gap, rest);
    MoreItems(b, [c], gap, rest);
    MoreItems(a, [b] + [c], gap, rest);
    assert [a] + ([b] + [c]) == [a, b, c];
  }

  /** "m/d/y" with every width: month m, day d and the year with its century, at midnight in the local zone. */
  lemma SlashDate(m: nat, mw: nat, d: nat, dw: nat, y: nat, yw: nat)
    requires 1 <= m <= 12 && 1 <= d <= 31 && y <= MAX_DECIMAL
    ensures ParseText(Padded(m, mw) + ("/" + (Padded(d, dw) + ("/" + (Padded(y, yw) + ""))))) ==
            Accept(Fields(if y < 50 then 2000 + y else if y < 100 then 1900 + y else y, m - 1, d, 0, 0, 0, 0, INT_MAX))
  {
    hide ParseText, Padded, DayText;
    ThreeNumbers(m, mw, d, dw, y, yw, '/', NOTHING);
    ThreeItems(Num(m, mw), Num(d, dw), Num(y, yw), '/', "");
  }

  /** A date with a month name and a clock to the minute, and then the end. */
  function DateAndClock(i: nat, d: nat, dw: nat, y: nat, yw: nat, h: nat, hw: nat, m: nat, mw: nat, end: string): string
    requires i <= 11
  {
    MONTH_TEXT[i] + (" " + (Padded(d, dw) + (" " + (Padded(y, yw) + (" " +
      (Padded(h, hw) + (":" + (Padded(m, mw) + end))))))))
  }

  /** "Mon d y h:mm AM" and "Mon d y h:mm PM". */
  lemma ClockOfTwelve(i: nat, d: nat, dw: nat, y: nat, yw: nat, h: nat, hw: nat, m: nat, mw: nat)
    requires i <= 11 && 1 <= d <= 31 && 100 <= y <= MAX_DECIMAL && h <= 23 && m <= 59
    ensures ParseText(DateAndClock(i, d, dw, y, yw, h, hw, m, mw, " AM")) == Accept(Fields(y, i, d, h, m, 0, 0, INT_MAX))
    ensures ParseText(DateAndClock(i, d, dw, y, yw, h, hw, m, mw, " PM")) ==
            Accept(Fields(y, i, d, if h < 12 then h + 12 else h, m, 0, 0, INT_MAX))
  {
    hide ParseText, Padded, Decimal, DayText, Numbers, MonthOf;
    var items := [Name(i, ""), Num(d, dw), Num(y, yw)];
    var clock := Some(Clock(h, hw, m, mw, NoSeconds));
    var am, pm := Ending(clock, AM, NOTHING.zone), Ending(clock, PM, NOTHING.zone);
    NameAndTwo(Name(i, ""), d, dw, y, yw);
    NamedMonth(items, ' ', am);
    NamedMonth(items, ' ', pm);
    WrittenOut(i, d, dw, y, yw, am);
    WrittenOut(i, d, dw, y, yw, pm);
  }

  lemma NameAndTwo(it: Item, d: nat, dw: nat, y: nat, yw: nat)
    requires it.Name?
    ensures Numbers([it, Num(d, dw), Num(y, yw)]) == [d, y] && MonthOf([it, Num(d, dw), Num(y, yw)], INT_MAX) == it.i + 1
  {
    var items := [it, Num(d, dw), Num(y, yw)];
    assert items[1..] == [Num(d, dw), Num(y, yw)] && items[1..][1..] == [Num(y, yw)] && items[1..][1..][1..] == [];
    assert Numbers(items[1..][1..]) == [y] && Numbers(items[1..]) == [d, y];
    assert MonthOf(items[1..], it.i + 1) == MonthOf(items[1..][1..], it.i + 1) == it.i + 1;
  }

  lemma WrittenOut(i: nat, d: nat, dw: nat, y: nat, yw: nat, t: Ending)
    requires i <= 11 && d <= 31 && y <= MAX_DECIMAL && t.zone == NOTHING.zone && t.meridiem != NoMeridiem
    requires t.clock.Some? && t.clock.value.seconds == NoSeconds
    ensures var c := t.clock.value;
            Text([Name(i, ""), Num(d, dw), Num(y, yw)], ' ', t) ==
            DateAndClock(i, d, dw, y, yw, c.h, c.hw, c.m, c.mw, if t.meridiem == AM then " AM" else " PM")
  {
    hide Padded, DayText;
    ThreeItems(Name(i, ""), Num(d, dw), Num(y, yw), ' ', EndingText(t, ' '));
    assert MONTH_TEXT[i] + "" == MONTH_TEXT[i];
    assert MeridiemText(t.meridiem, "") == if t.meridiem == AM then " AM" else " PM";
  }

  /** "Mon d y h:mm:ss.fff" with nothing, a zone word or an offset of each form behind it. */
  lemma ZonedFraction(i: nat, d: nat, dw: nat, y: nat, yw: nat, c: Clock, z: ZonePart)
    requires i <= 11 && 1 <= d <= 31 && 100 <= y <= MAX_DECIMAL && ClockOk(c) && c.h <= 23 && c.m <= 59
    requires c.seconds.Fractional? && ZoneTextOk(z) && (z.word != "" && !z.space ==> IsZ(z.word))
    requires ShiftHours(z.shift) <= 24 && ShiftMinutes(z.shift) <= 59
    ensures AllDigits(FirstThree(c.seconds.digits))
    ensures var r := ParseText(Text([Name(i, ""), Num(d, dw), Num(y, yw)], ' ', Ending(Some(c), NoMeridiem, z)));
            var date := Fields(y, i, d, c.h, c.m, c.seconds.s, Decimal(FirstThree(c.seconds.digits)), INT_MAX);
            && (z.shift.NoShift? && z.word == "" ==> r == Accept(date))
            && (z.shift.NoShift? && z.word != "" ==> r == Accept(date.(zone := 0)))
            && (z.shift.Hours? ==> r == Accept(date.(zone := z.shift.h * if z.shift.negative then -3600 else 3600)))
            && (z.shift.Together? || z.shift.Apart? ==>
                  r == Accept(date.(zone := (z.shift.h * 60 + z.shift.m) * if z.shift.negative then -60 else 60)))
  {
    hide ParseText, Text, Padded, Decimal, FirstThree, Numbers, MonthOf, Count;
    FirstThreeIs(c.seconds.digits);
    NameAndTwo(Name(i, ""), d, dw, y, yw);
    NamedMonth([Name(i, ""), Num(d, dw), Num(y, yw)], ' ', Ending(Some(c), NoMeridiem, z));
  }

  // ---------------------------------------------------------------------------------------------
  // What is refused

  /** A date and then anything: the legacy path goes on with the numbers read. */
  lemma DateThen(items: seq<Item>, gap: char, rest: string)
    requires ItemsOk(items) && IsGap(gap) && !StartsDigit(rest) && !StartsAlpha(rest)
    requires OpensNoPart(Lex(rest)) && Numbers(items) != []
    requires IsoYear(items) ==> Head(Lex(rest)) != Symbol('-') && !Head(Lex(rest)).TimeFlag? && !Head(Lex(rest)).StringEnd?
    ensures ParseText(DayText(items, gap, rest)) ==
            if |Numbers(items)| > 3 then Reject
            else Finished(LegacyDates(Lex(rest), START.(day := Numbers(items), month := MonthOf(items, INT_MAX),
                                                        hasNumber := true)))
  {
    hide Lex, LegacyDates, ParseTokens, AllFields, DayTokens, DayRead, ItemOk;
    LexDay(items, gap, rest);
    DayIsLegacy(items, gap, Lex(rest));
    TakeDay(items, gap, Lex(rest), START);
    DayReadIs(items, START);
    assert START.day + Numbers(items) == Numbers(items);
  }

  /** More than three numbers are refused, whatever follows. */
  lemma FourNumbers(items: seq<Item>, gap: char, t: Ending)
    requires Usual(items, gap, t) && |Numbers(items)| > 3
    ensures ParseText(Text(items, gap, t)) == Reject
  {
    hide ParseText, Text, AllFields;
    Parsed(items, gap, t);
  }

  /** The words that mean something behind a date. */
  predicate IsKeyWord(w: string) {
    w == "am" || w == "pm" || w == "z" || w == "utc" || w == "gmt" || w in MONTH_NAME
  }

  /** Any other word behind a date makes it none, and so does AM or PM without a clock. */
  lemma WordRefused(items: seq<Item>, gap: char, w: string, rest: string)
    requires ItemsOk(items) && IsGap(gap) && Numbers(items) != []
    requires w != [] && AllAlpha(w) && !StartsAlpha(rest)
    requires !IsKeyWord(Letters(w, 3)) || Letters(w, 3) == "am" || Letters(w, 3) == "pm"
    ensures ParseText(DayText(items, gap, " " + (w + rest))) == Reject
  {
    hide Lex, LegacyDates, ParseText, DayText, Letters, AllFields;
    LexWord(w, rest);
    LexSpace(w + rest);
    DateThen(items, gap, " " + (w + rest));
    var st := START.(day := Numbers(items), month := MonthOf(items, INT_MAX), hasNumber := true);
    var token := KeyWord(Letters(w, 3));
    TakeSpace([token] + Lex(rest), st);
    LegacyUnfold([token] + Lex(rest), st);
    assert ([token] + Lex(rest))[1..] == Lex(rest);
  }

  /** A clock to the minute, and then anything that is no digit. */
  lemma ClockThen(items: seq<Item>, gap: char, h: nat, hw: nat, m: nat, mw: nat, rest: string)
    requires ItemsOk(items) && IsGap(gap) && Numbers(items) != [] && |Numbers(items)| <= 3
    requires h <= MAX_DECIMAL && m <= MAX_DECIMAL && !StartsDigit(rest)
    ensures ParseText(DayText(items, gap, [gap] + (Padded(h, hw) + (":" + (Padded(m, mw) + rest))))) ==
            Finished(LegacyDates([Number(m, |Padded(m, mw)|)] + Lex(rest),
                                 START.(day := Numbers(items), month := MonthOf(items, INT_MAX), time := [h],
                                        hasNumber := true)))
  {
    hide Lex, LegacyDates, ParseText, DayText, AllFields, Padded;
    var hl, ml := |Padded(h, hw)|, |Padded(m, mw)|;
    LexNumber(m, mw, rest);
    LexMark(':', Padded(m, mw) + rest);
    LexNumber(h, hw, ":" + (Padded(m, mw) + rest));
    var clock := Padded(h, hw) + (":" + (Padded(m, mw) + rest));
    LexGap(gap, clock);
    GapOpensNothing(gap, Lex(clock));
    DateThen(items, gap, [gap] + clock);
    var st := START.(day := Numbers(items), month := MonthOf(items, INT_MAX), hasNumber := true);
    TakeGap(gap, Lex(clock), st);
    TakeClockPart(h, hl, Number(m, ml), Lex(rest), st);
    assert st.time + [h as int] == [h];
  }

  /** Only the end, a sign, a Z or a blank may follow the last number of a clock: "3:04PM" and "3:04UTC" are refused. */
  lemma GluedRefused(items: seq<Item>, gap: char, h: nat, hw: nat, m: nat, mw: nat, rest: string)
    requires ItemsOk(items) && IsGap(gap) && Numbers(items) != [] && |Numbers(items)| <= 3
    requires h <= MAX_DECIMAL && m <= 59 && !StartsDigit(rest)
    requires rest != [] && rest[0] != DEL && rest[0] !in [' ', '\t', '+', '-', ':']
    requires StartsAlpha(rest) ==> Letters(rest, 3) != "z"
    ensures ParseText(DayText(items, gap, [gap] + (Padded(h, hw) + (":" + (Padded(m, mw) + rest))))) == Reject
  {
    hide Lex, LegacyDates, ParseText, DayText, AllFields, Padded, Letters;
    ClockThen(items, gap, h, hw, m, mw, rest);
    LexStep(rest);
    var st := START.(day := Numbers(items), month := MonthOf(items, INT_MAX), time := [h], hasNumber := true);
    var number := Number(m, |Padded(m, mw)|);
    LegacyUnfold([number] + Lex(rest), st);
    assert ([number] + Lex(rest))[1..] == Lex(rest);
  }

  /** A colon with no number behind it is refused. */
  lemma OpenClockRefused(items: seq<Item>, gap: char, h: nat, hw: nat, m: nat, mw: nat, rest: string)
    requires ItemsOk(items) && IsGap(gap) && Numbers(items) != [] && |Numbers(items)| <= 3
    requires h <= MAX_DECIMAL && m <= MAX_DECIMAL && !StartsDigit(rest)
    ensures ParseText(DayText(items, gap, [gap] + (Padded(h, hw) + (":" + (Padded(m, mw) + (":" + rest)))))) == Reject
  {
    hide Lex, LegacyDates, ParseText, DayText, AllFields, Padded;
    ClockThen(items, gap, h, hw, m, mw, ":" + rest);
    LexMark(':', rest);
    NoNumberFirst(rest);
    var st := START.(day := Numbers(items), month := MonthOf(items, INT_MAX), time := [h], hasNumber := true);
    var number := Number(m, |Padded(m, mw)|);
    First(Symbol(':'), Lex(rest));
    LegacyUnfold([number] + ([Symbol(':')] + Lex(rest)), st);
    assert ([number] + ([Symbol(':')] + Lex(rest)))[1..] == [Symbol(':')] + Lex(rest);
  }

  lemma NoNumberFirst(rest: string)
    requires !StartsDigit(rest)
    ensures !Head(Lex(rest)).Number?
  {
    hide Lex;
    LexStep(rest);
  }

  /** A sign behind the clock needs a number of at most four digits, or a colon after it. */
  lemma ShiftRefused(items: seq<Item>, gap: char, h: nat, hw: nat, m: nat, mw: nat, negative: bool, n: nat, width: nat)
    requires ItemsOk(items) && IsGap(gap) && Numbers(items) != [] && |Numbers(items)| <= 3
    requires h <= MAX_DECIMAL && m <= 59 && n <= MAX_DECIMAL && |Padded(n, width)| > 4
    ensures var sign := [if negative then '-' else '+'];
            var clock := Padded(h, hw) + (":" + (Padded(m, mw) + (sign + (Padded(n, width) + ""))));
            ParseText(DayText(items, gap, [gap] + clock)) == Reject
  {
    hide Lex, LegacyDates, ParseText, DayText, AllFields, Padded;
    var mark := if negative then '-' else '+';
    LexEmpty();
    LexNumber(n, width, "");
    LexMark(mark, Padded(n, width) + "");
    ClockThen(items, gap, h, hw, m, mw, [mark] + (Padded(n, width) + ""));
    var number := [Number(n, |Padded(n, width)|)] + [];
    var st := START.(day := Numbers(items), month := MonthOf(items, INT_MAX), time := [h], hasNumber := true);
    First(Symbol(mark), number);
    TakeLast(m, |Padded(m, mw)|, [Symbol(mark)] + number, st);
    var next := st.(time := st.time + [m as int]);
    First(Number(n, |Padded(n, width)|), []);
    LegacyUnfold([Symbol(mark)] + number, next);
    assert ([Symbol(mark)] + number)[1..] == number;
  }

  /** A last clock number above 59 is no minute but one more number of the date: here, the year. */
  lemma LateMinutes(i: nat, d: nat, dw: nat, h: nat, hw: nat, m: nat, mw: nat)
    requires i <= 11 && 1 <= d <= 31 && h <= 23 && 60 <= m <= MAX_DECIMAL
    ensures ParseText(DayText([Name(i, ""), Num(d, dw)], ' ', " " + (Padded(h, hw) + (":" + (Padded(m, mw) + "")))))
         == Accept(Fields(if m < 100 then 1900 + m else m, i, d, h, 0, 0, 0, INT_MAX))
  {
    hide Lex, LegacyDates, ParseText, DayText, Padded;
    var items := [Name(i, ""), Num(d, dw)];
    assert items[1..] == [Num(d, dw)] && items[1..][1..] == [];
    assert Numbers(items[1..]) == [d] && Numbers(items) == [d];
    assert MonthOf(items, INT_MAX) == MonthOf(items[1..], i + 1) == i + 1;
    ClockThen(items, ' ', h, hw, m, mw, "");
    LexEmpty();
    var number := Number(m, |Padded(m, mw)|);
    var st := START.(day := [d], month := i + 1, time := [h], hasNumber := true);
    assert [number] + [] == [number];
    Take(number, [], st);
    LegacyUnfold([], st.(day := [d, m]));
    assert [d as int] + [m as int] == [d, m];
  }

  /** A word that means nothing is refused right before a number, as is a T. */
  lemma WordBeforeNumber(w: string, rest: string)
    requires w != [] && AllAlpha(w) && !IsKeyWord(Letters(w, 3)) && StartsDigit(rest)
    ensures ParseText(w + rest) == Reject
  {
    hide Lex, LegacyDates, Letters, AllFields, Count, SkipDigits;
    LexWord(w, rest);
    LexStep(rest);
    var token := KeyWord(Letters(w, 3));
    LegacyUnfold([token] + Lex(rest), START);
    assert ([token] + Lex(rest))[1..] == Lex(rest);
  }

  /** Without a number there is no date. */
  lemma NamesAlone(items: seq<Item>, gap: char)
    requires ItemsOk(items) && IsGap(gap) && Numbers(items) == []
    ensures ParseText(DayText(items, gap, "")) == Reject
  {
    hide Lex, LegacyDates, ParseTokens, DayTokens, DayRead, ItemOk;
    LexEmpty();
    LexDay(items, gap, "");
    assert items[0].Name?;
    DayIsLegacy(items, gap, []);
    TakeDay(items, gap, [], START);
    DayReadIs(items, START);
    LegacyUnfold([], START.(month := MonthOf(items, INT_MAX)));
    assert START.day + Numbers(items) == [];
  }
}
