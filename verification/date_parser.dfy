/** The date parser as it runs (date_parse.cpp and the value classes of date_parse.h), proved to compute what the
    grammar says. */
module DateParser {
  import opened Basics
  import opened DateTokens
  import opened DateGrammar

  const YEAR: nat := 0
  const MONTH: nat := 1
  const DAYS: nat := 2
  const HOUR: nat := 3
  const MIN: nat := 4
  const SEC: nat := 5
  const MS: nat := 6
  const TIMEZONE: nat := 8
  const DATE_LENGTH: nat := 9

  /** Milliseconds of a fraction: none where the divisor leaves the range of int. */
  method NormMilliSecond(value: nat, length: nat) returns (ms: Option<int>)
    requires length >= 1
    ensures ms == NormMs(value, length)
  {
    var len := length;
    if len == 3 {
      return Some(value);
    }
    if len == 2 {
      return Some(value * 10);
    }
    if len == 1 {
      return Some(value * 100);
    }
    var divisor := 1;
    while len > 3
      invariant 3 <= len <= length
      invariant divisor == Pow10(length - len) && divisor <= INT_MAX
    {
      divisor := divisor * 10;
      PowersOfTen(length - len + 1);
      if divisor > INT_MAX {
        return None;
      }
      len := len - 1;
    }
    PowersOfTen(length - 3);
    return Some(value / divisor);
  }

  /** 10^9 is the last power of ten in the range of int. */
  lemma {:induction false} PowersOfTen(n: nat)
    ensures Pow10(n) <= INT_MAX <==> n <= 9
  {
    if n <= 9 {
      Pow10Monotone(n, 9);
    } else {
      Pow10Monotone(10, n);
    }
  }

  lemma {:induction false} Pow10Monotone(m: nat, n: nat)
    requires m <= n
    ensures Pow10(m) <= Pow10(n)
  {
    if m < n {
      Pow10Monotone(m, n - 1);
    }
  }

  class TimeZone {
    var sign: int
    var hour: int
    var min: int

    ghost function View(): Zone
      reads this
    {
      Zone(sign, hour, min)
    }

    constructor ()
      ensures View() == LOCAL
    {
      sign, hour, min := INT_MAX, INT_MAX, INT_MAX;
    }

    method SetUTC()
      modifies this
      ensures View() == UTC
    {
      sign, hour, min := 1, 0, 0;
    }

    method SetTimeZone(time: array<int>) returns (ok: bool)
      requires time.Length == DATE_LENGTH
      modifies time
      ensures ok <==> ZoneSeconds(View()).Some?
      ensures ok ==> time[..] == old(time[..])[TIMEZONE := ZoneSeconds(View()).value]
    {
      if hour != INT_MAX {
        if !IsBetween(hour, 0, 24) || !IsBetween(min, 0, 59) {
          return false;
        }
        time[TIMEZONE] := sign * (hour * 3600 + min * 60);
      } else {
        time[TIMEZONE] := INT_MAX;
      }
      return true;
    }
  }

  class TimeValue {
    const data: array<int>
    var index: nat

    ghost predicate Valid()
      reads this`index
    {
      data.Length == 4 && index <= 4
    }

    ghost function View(): seq<int>
      reads this`index, data
      requires Valid()
    {
      data[..index]
    }

    constructor ()
      ensures Valid() && View() == [] && fresh(data)
    {
      data := new int[4](_ => 0);
      index := 0;
    }

    method SetData(value: int) returns (ok: bool)
      requires Valid()
      modifies this, data
      ensures Valid() && (ok <==> |old(View())| < 4)
      ensures View() == if ok then old(View()) + [value] else old(View())
    {
      if index < 4 {
        data[index] := value;
        index := index + 1;
        return true;
      }
      return false;
    }

    method FixHourForAMOrPM(value: int)
      requires Valid() && View() != []
      modifies data
      ensures View() == FixHour(old(View()), value)
    {
      if data[0] < 12 {
        data[0] := data[0] + value;
      }
    }

    method SetTimeValue(time: array<int>) returns (ok: bool)
      requires Valid() && time.Length == DATE_LENGTH && time != data
      modifies time
      ensures ok <==> TimeIsValid(View())
      ensures forall i :: 0 <= i < 4 ==> time[HOUR + i] == TimeAt(View(), i)
      ensures forall i :: 0 <= i < DATE_LENGTH && !(HOUR <= i < HOUR + 4) ==> time[i] == old(time[i])
    {
      for i := 0 to 4
        invariant forall j :: HOUR <= j < HOUR + i ==> time[j] == TimeAt(View(), j - HOUR)
        invariant forall j :: 0 <= j < DATE_LENGTH && !(HOUR <= j < HOUR + i) ==> time[j] == old(time[j])
      {
        if i < index {
          time[HOUR + i] := data[i];
        } else {
          time[HOUR + i] := 0;
        }
      }
      assert time[HOUR] == TimeAt(View(), 0) && time[MIN] == TimeAt(View(), 1);
      assert time[SEC] == TimeAt(View(), 2) && time[MS] == TimeAt(View(), 3);
      if time[HOUR] == 24 {
        if time[MIN] == 0 && time[SEC] == 0 && time[MS] == 0 {
          return true;
        }
        return false;
      }
      if !IsBetween(time[HOUR], 0, 24) || !IsBetween(time[MIN], 0, 59) || !IsBetween(time[SEC], 0, 59)
         || !IsBetween(time[MS], 0, 999)
      {
        return false;
      }
      return true;
    }
  }

  class DayValue {
    const data: array<int>
    var index: nat
    var month: int
    var isIsoFlag: bool

    ghost predicate Valid()
      reads this`index
    {
      data.Length == 3 && index <= 3
    }

    ghost function View(): seq<int>
      reads this`index, data
      requires Valid()
    {
      data[..index]
    }

    constructor ()
      ensures Valid() && View() == [] && fresh(data) && month == INT_MAX && !isIsoFlag
    {
      data := new int[3](_ => 0);
      index, month, isIsoFlag := 0, INT_MAX, false;
    }

    method SetData(value: int) returns (ok: bool)
      requires Valid()
      modifies this`index, data
      ensures Valid() && (ok <==> |old(View())| < 3)
      ensures View() == if ok then old(View()) + [value] else old(View())
    {
      if index < 3 {
        data[index] := value;
        index := index + 1;
        return true;
      }
      return false;
    }

    method SetDayValue(time: array<int>) returns (ok: bool)
      requires Valid() && time.Length == DATE_LENGTH && time != data
      modifies time, data
      ensures ok <==> DayFields(old(View()), month, isIsoFlag).Some?
      ensures ok ==>
                var (y, m, d) := DayFields(old(View()), month, isIsoFlag).value;
                time[..] == old(time[..])[YEAR := y][MONTH := m][DAYS := d]
    {
      ghost var was := View();
      if index == 0 {
        return false;
      }
      for i := index to 3
        invariant forall j :: 0 <= j < i ==> data[j] == DayAt(was, j)
        invariant time[..] == old(time[..])
      {
        data[i] := 1;
      }
      var order := Order();
      if order.None? {
        return false;
      }
      var (year, mon, day) := order.value;
      if !isIsoFlag {
        if IsBetween(year, 0, 49) {
          year := year + 2000;
        } else if IsBetween(year, 50, 99) {
          year := year + 1900;
        }
      }
      if !IsBetween(mon, 1, 12) || !IsBetween(day, 1, 31) {
        return false;
      }
      time[YEAR] := year;
      time[MONTH] := mon - 1;
      time[DAYS] := day;
      return true;
    }

    /** Which number is the year, the month and the day, once missing numbers are filled with 1. */
    method Order() returns (r: Option<(int, int, int)>)
      requires Valid() && index > 0 && forall j :: index <= j < 3 ==> data[j] == 1
      ensures r == DayOrder(data[..index], month, isIsoFlag)
    {
      if month == INT_MAX {
        if isIsoFlag || (index == 3 && IsBetween(data[2], 1, 31) && !IsBetween(data[0], 1, 12)) {
          return Some((data[YEAR], data[MONTH], data[DAYS]));
        } else {
          if index == 3 {
            return Some((data[2], data[0], data[1]));
          } else {
            return Some((data[0], data[1], data[2]));
          }
        }
      } else {
        if index == 3 {
          return None;
        }
        if index == 2 {
          if !IsBetween(data[0], 1, 31) {
            return Some((data[0], month, data[1]));
          } else {
            return Some((data[1], month, data[0]));
          }
        } else {
          return Some((1, month, data[0]));
        }
      }
    }
  }

  // ---------------------------------------------------------------------------------------------
  // The ISO path

  /** Takes an ISO date from the tokens into `day`; where it fails, what it took stays taken. */
  method IsIsoDateTime(proxy: DateProxy, day: DayValue) returns (isIso: bool)
    requires proxy.Valid() && proxy.date == Head(proxy.Tokens())
    requires day.Valid() && day.View() == []
    modifies proxy, proxy.reader, day`index, day.data
    ensures proxy.Valid() && proxy.date == Head(proxy.Tokens()) && day.Valid()
    ensures (isIso, proxy.Tokens(), day.View()) == IsoDate(old(proxy.Tokens()))
  {
    hide DateProxy.Valid, DateProxy.Tokens, DayValue.View, IsoMonth;
    if proxy.date.IsSign() {
      var sign := proxy.NextDate();
      if !proxy.date.IsDecimal(6) {
        return false;
      }
      var unit := proxy.NextDate();
      var signYear := unit.value;
      if sign == Symbol('-') && signYear == 0 {
        return false;
      }
      if sign == Symbol('-') {
        signYear := -signYear;
      }
      var _ := day.SetData(signYear);
      assert day.View() == [signYear];
      isIso := TakeIsoMonth(proxy, day);
    } else if proxy.date.IsDecimal(4) {
      var unit := proxy.NextDate();
      var _ := day.SetData(unit.value);
      assert day.View() == [unit.value];
      isIso := TakeIsoMonth(proxy, day);
    } else {
      return false;
    }
  }

  method TakeIsoMonth(proxy: DateProxy, day: DayValue) returns (isIso: bool)
    requires proxy.Valid() && proxy.date == Head(proxy.Tokens())
    requires day.Valid() && |day.View()| == 1
    modifies proxy, proxy.reader, day`index, day.data
    ensures proxy.Valid() && proxy.date == Head(proxy.Tokens()) && day.Valid()
    ensures (isIso, proxy.Tokens(), day.View()) == IsoMonth(old(proxy.Tokens()), old(day.View()))
  {
    hide DateProxy.Valid, DateProxy.Tokens, DayValue.View;
    if proxy.date == Symbol('-') {
      var _ := proxy.NextDate();
      var mon := proxy.date;
      if !mon.IsDecimal(2) {
        return false;
      }
      var _ := day.SetData(mon.value);
      var _ := proxy.NextDate();
      if proxy.date == Symbol('-') {
        var _ := proxy.NextDate();
        var d := proxy.date;
        if !d.IsDecimal(2) {
          return false;
        }
        var _ := day.SetData(d.value);
        var _ := proxy.NextDate();
      }
    }
    if !proxy.date.TimeFlag? {
      if !proxy.date.StringEnd? {
        return false;
      }
    }
    return true;
  }

  /** The method met the outcome `want` and, if that accepts, holds the time and the zone it gives. */
  ghost predicate Meets(r: Outcome<()>, want: Outcome<(seq<int>, Zone)>, time: seq<int>, zone: Zone) {
    match want
    case Reject => r.Reject?
    case Undefined => r.Undefined?
    case Accept(v) => r.Accept? && time == v.0 && zone == v.1
  }

  method ParseIsoDateTime(proxy: DateProxy, day: DayValue, time: TimeValue, zone: TimeZone) returns (r: Outcome<()>)
    requires proxy.Valid() && proxy.date == Head(proxy.Tokens()) && NumbersOk(proxy.Tokens())
    requires time.Valid() && time.View() == [] && zone.View() == LOCAL && day.data != time.data
    modifies proxy, proxy.reader, time, time.data, zone, day`isIsoFlag
    ensures time.Valid() && Meets(r, IsoTime(old(proxy.Tokens())), time.View(), zone.View())
    ensures r.Accept? ==> day.isIsoFlag
  {
    hide DateProxy.Valid, DateProxy.Tokens, TimeValue.View, NumbersOk, IsoSeconds;
    TimeViewLength(time);
    TailOk(proxy.Tokens());
    if proxy.date.TimeFlag? {
      var _ := proxy.NextDate();
      TailOk(proxy.Tokens());
      var hour := proxy.date;
      if !hour.IsDecimal(2) {
        return Reject;
      }
      var _ := time.SetData(hour.value);
      var _ := proxy.NextDate();
      TailOk(proxy.Tokens());
      if proxy.date != Symbol(':') {
        return Reject;
      }
      var _ := proxy.NextDate();
      TailOk(proxy.Tokens());
      var min := proxy.date;
      if !min.IsDecimal(2) {
        return Reject;
      }
      var _ := time.SetData(min.value);
      assert time.View() == [hour.value, min.value];
      var _ := proxy.NextDate();
      r := TakeIsoSeconds(proxy, time, zone);
      if !r.Accept? {
        return;
      }
    }
    if zone.hour == INT_MAX && time.index == 0 {
      zone.SetUTC();
    }
    day.isIsoFlag := true;
    return Accept(());
  }

  method TakeIsoSeconds(proxy: DateProxy, time: TimeValue, zone: TimeZone) returns (r: Outcome<()>)
    requires proxy.Valid() && proxy.date == Head(proxy.Tokens()) && NumbersOk(proxy.Tokens())
    requires time.Valid() && |time.View()| == 2 && zone.View() == LOCAL
    modifies proxy, proxy.reader, time, time.data, zone
    ensures time.Valid() && Meets(r, IsoSeconds(old(proxy.Tokens()), old(time.View())), time.View(), zone.View())
    ensures r.Accept? ==> time.index > 0
  {
    hide DateProxy.Valid, DateProxy.Tokens, TimeValue.View, NumbersOk, IsoZone, NormMs;
    TimeViewLength(time);
    if proxy.date == Symbol(':') {
      TailOk(proxy.Tokens());
      var _ := proxy.NextDate();
      TailOk(proxy.Tokens());
      var second := proxy.date;
      if !second.IsDecimal(2) {
        return Reject;
      }
      var _ := time.SetData(second.value);
      var _ := proxy.NextDate();
      TailOk(proxy.Tokens());
      if proxy.date == Symbol('.') {
        var _ := proxy.NextDate();
        TailOk(proxy.Tokens());
        var milliSec := proxy.date;
        if !milliSec.Number? {
          return Reject;
        }
        var ms := NormMilliSecond(milliSec.value, milliSec.len);
        if ms.None? {
          return Undefined;
        }
        var _ := time.SetData(ms.value);
        var _ := proxy.NextDate();
      }
    }
    TimeViewLength(time);
    r := TakeIsoZone(proxy, time.View(), zone);
  }

  lemma TimeViewLength(time: TimeValue)
    requires time.Valid()
    ensures |time.View()| == time.index
  {
  }

  method TakeIsoZone(proxy: DateProxy, ghost time: seq<int>, zone: TimeZone) returns (r: Outcome<()>)
    requires proxy.Valid() && proxy.date == Head(proxy.Tokens()) && zone.View() == LOCAL
    modifies proxy, proxy.reader, zone
    ensures Meets(r, IsoZone(old(proxy.Tokens()), time), time, zone.View())
  {
    hide DateProxy.Valid, DateProxy.Tokens;
    if proxy.date.IsWordZ() {
      zone.SetUTC();
      var _ := proxy.NextDate();
    } else if proxy.date.IsSign() {
      if proxy.date == Symbol('-') {
        zone.sign := -1;
      } else {
        zone.sign := 1;
      }
      var _ := proxy.NextDate();
      var hourZone := proxy.date;
      if hourZone.IsDecimal(2) {
        zone.hour := hourZone.value;
        var _ := proxy.NextDate();
        if proxy.date != Symbol(':') {
          return Reject;
        }
        var _ := proxy.NextDate();
        var minZone := proxy.date;
        if !minZone.IsDecimal(2) {
          return Reject;
        }
        zone.min := minZone.value;
        var _ := proxy.NextDate();
      } else if hourZone.IsDecimal(4) {
        zone.hour := hourZone.value / 100;
        zone.min := hourZone.value % 100;
        var _ := proxy.NextDate();
      } else {
        return Reject;
      }
    } else {
      if !proxy.date.StringEnd? {
        return Reject;
      }
    }
    return Accept(());
  }

  // ---------------------------------------------------------------------------------------------
  // The legacy path

  /** What the value objects hold. */
  ghost function StateOf(day: DayValue, time: TimeValue, zone: TimeZone, hasNumber: bool): Legacy
    reads day, day.data, time, time.data, zone
    requires day.Valid() && time.Valid()
  {
    Legacy(day.View(), day.month, time.View(), zone.View(), hasNumber)
  }

  /** The method met the outcome `want` and, if that accepts, left the tokens and the state it gives. */
  ghost predicate Steps(r: Outcome<()>, want: Outcome<(Tokens, Legacy)>, ts: Tokens, st: Legacy) {
    match want
    case Reject => r.Reject?
    case Undefined => r.Undefined?
    case Accept(v) => r.Accept? && ts == v.0 && st == v.1
  }

  /** A number is an hour or minute before a colon, a second before a point, the last part of a time, or a part of
      the date. */
  method TakeNumber(proxy: DateProxy, num: int, day: DayValue, time: TimeValue, zone: TimeZone) returns (r: Outcome<()>)
    requires proxy.Valid() && proxy.date == Head(proxy.Tokens()) && NumbersOk(proxy.Tokens())
    requires day.Valid() && time.Valid() && day.data != time.data
    modifies proxy, proxy.reader, day`index, day.data, time, time.data
    ensures proxy.Valid() && proxy.date == Head(proxy.Tokens()) && day.Valid() && time.Valid()
    ensures Steps(r, LegacyNumber(num, old(proxy.Tokens()), old(StateOf(day, time, zone, true))), proxy.Tokens(),
                  StateOf(day, time, zone, true))
  {
    hide DateProxy.Valid, DateProxy.Tokens, TimeValue.View, DayValue.View, NumbersOk, NormMs;
    TimeViewLength(time);
    TailOk(proxy.Tokens());
    if proxy.date == Symbol(':') {
      var _ := proxy.NextDate();
      if !proxy.date.Number? {
        return Reject;
      }
      var ok := time.SetData(num);
      if !ok {
        return Reject;
      }
    } else if proxy.date == Symbol('.') && time.index == 2 && IsBetween(num, 0, 59) {
      r := TakeFraction(proxy, num, time);
      return;
    } else if (time.index == 1 && IsBetween(num, 0, 59)) || (time.index == 2 && IsBetween(num, 0, 59)) {
      var _ := time.SetData(num);
      if !proxy.date.IsValidFinallyTime() {
        return Reject;
      }
    } else {
      var ok := day.SetData(num);
      if !ok {
        return Reject;
      }
    }
    return Accept(());
  }

  method TakeFraction(proxy: DateProxy, num: int, time: TimeValue) returns (r: Outcome<()>)
    requires proxy.Valid() && NumbersOk(proxy.Tokens())
    requires time.Valid() && |time.View()| == 2
    modifies proxy, proxy.reader, time, time.data
    ensures proxy.Valid() && proxy.date == Head(proxy.Tokens()) && time.Valid()
    ensures var f := Tail(old(proxy.Tokens()));
            if !Head(f).Number? then r.Reject?
            else if NormMs(Head(f).value, Head(f).len).None? then r.Undefined?
            else if !Head(Tail(f)).IsValidFinallyTime() then r.Reject?
            else
              && r.Accept? && proxy.Tokens() == Tail(f)
              && time.View() == old(time.View()) + [num] + [NormMs(Head(f).value, Head(f).len).value]
  {
    hide DateProxy.Valid, DateProxy.Tokens, TimeValue.View, NumbersOk, NormMs;
    TailOk(proxy.Tokens());
    var _ := proxy.NextDate();
    TailOk(proxy.Tokens());
    var _ := time.SetData(num);
    var milliSec := proxy.date;
    if !milliSec.Number? {
      return Reject;
    }
    var ms := NormMilliSecond(milliSec.value, milliSec.len);
    if ms.None? {
      return Undefined;
    }
    var _ := time.SetData(ms.value);
    var _ := proxy.NextDate();
    if !proxy.date.IsValidFinallyTime() {
      return Reject;
    }
    return Accept(());
  }

  /** The offset after a sign. */
  method TakeZone(proxy: DateProxy, sign: int, ghost st: Legacy, zone: TimeZone) returns (r: Outcome<()>)
    requires proxy.Valid() && proxy.date == Head(proxy.Tokens())
    modifies proxy, proxy.reader, zone
    ensures proxy.Valid() && proxy.date == Head(proxy.Tokens())
    ensures Steps(r, LegacyZone(sign, old(proxy.Tokens()), st), proxy.Tokens(), st.(zone := zone.View()))
  {
    hide DateProxy.Valid, DateProxy.Tokens;
    zone.sign := sign;
    var timeNumUnit := proxy.date;
    if !timeNumUnit.Number? {
      return Reject;
    }
    var timeNum, numLength := timeNumUnit.value, timeNumUnit.len;
    var _ := proxy.NextDate();
    if proxy.date == Symbol(':') {
      var _ := proxy.NextDate();
      if !proxy.date.Number? {
        return Reject;
      }
      zone.hour := timeNum;
      zone.min := proxy.date.value;
      var _ := proxy.NextDate();
    } else if numLength == 1 || numLength == 2 {
      zone.hour := timeNum;
      zone.min := 0;
    } else if numLength == 3 || numLength == 4 {
      zone.hour := timeNum / 100;
      zone.min := timeNum % 100;
    } else {
      return Reject;
    }
    return Accept(());
  }

  /** One token of the legacy loop. */
  method TakeToken(proxy: DateProxy, date: DateUnit, day: DayValue, time: TimeValue, zone: TimeZone, hasNumber: bool)
    returns (r: Outcome<()>, hasNumber': bool)
    requires proxy.Valid() && proxy.date == Head(proxy.Tokens()) && NumbersOk(proxy.Tokens())
    requires day.Valid() && time.Valid() && day.data != time.data && !date.StringEnd?
    modifies proxy, proxy.reader, day`index, day`month, day.data, time, time.data, zone
    ensures proxy.Valid() && proxy.date == Head(proxy.Tokens()) && day.Valid() && time.Valid()
    ensures Steps(r, LegacyStep(date, old(proxy.Tokens()), old(StateOf(day, time, zone, hasNumber))), proxy.Tokens(),
                  StateOf(day, time, zone, hasNumber'))
  {
    hide DateProxy.Valid, DateProxy.Tokens, TimeValue.View, DayValue.View, NumbersOk, LegacyNumber, LegacyZone;
    TimeViewLength(time);
    hasNumber' := hasNumber;
    if date.Number? {
      hasNumber' := true;
      r := TakeNumber(proxy, date.value, day, time, zone);
      return;
    } else if date.Month? {
      day.month := date.month;
    } else if date.ZoneWord? && hasNumber {
      zone.SetUTC();
    } else if date.AmPm? {
      if time.index != 0 {
        time.FixHourForAMOrPM(date.hours);
      } else if hasNumber {
        return Reject, hasNumber;
      }
    } else if date.TimeFlag? || date.InvalidWord? {
      if hasNumber {
        return Reject, hasNumber;
      }
      if proxy.date.Number? {
        return Reject, hasNumber;
      }
    } else if date.IsSign() && (time.index != 0 || (zone.hour == 0 && zone.min == 0)) {
      r := TakeZone(proxy, if date == Symbol('-') then -1 else 1, StateOf(day, time, zone, hasNumber), zone);
      return;
    }
    return Accept(()), hasNumber';
  }

  method ParseLegacyDates(proxy: DateProxy, day: DayValue, time: TimeValue, zone: TimeZone) returns (r: Outcome<()>)
    requires proxy.Valid() && proxy.date == Head(proxy.Tokens()) && NumbersOk(proxy.Tokens())
    requires day.Valid() && time.Valid() && day.data != time.data && ZoneOk(zone.View())
    modifies proxy, proxy.reader, day`index, day`month, day.data, time, time.data, zone
    ensures day.Valid() && time.Valid()
    ensures var want := LegacyDates(old(proxy.Tokens()), old(StateOf(day, time, zone, |day.View()| > 0)));
            match want
            case Reject => r.Reject?
            case Undefined => r.Undefined?
            case Accept(st) => r.Accept? && StateOf(day, time, zone, st.hasNumber) == st
  {
    hide DateProxy.Valid, DateProxy.Tokens, TimeValue.View, DayValue.View, NumbersOk, LegacyStep, LegacyDates, ZoneOk;
    ghost var start, st0 := proxy.Tokens(), StateOf(day, time, zone, |day.View()| > 0);
    DayViewLength(day);
    TailOk(proxy.Tokens());
    var date := proxy.NextDate();
    PushedBack(date, start);
    var hasNumber := day.index > 0;
    while !date.StringEnd?
      invariant proxy.Valid() && proxy.date == Head(proxy.Tokens()) && NumbersOk(proxy.Tokens()) && NumberOk(date)
      invariant day.Valid() && time.Valid() && ZoneOk(zone.View())
      invariant LegacyDates(start, st0) == LegacyDates(Pushed(date, proxy.Tokens()), StateOf(day, time, zone, hasNumber))
      decreases |Pushed(date, proxy.Tokens())|
    {
      ghost var ts, st := proxy.Tokens(), StateOf(day, time, zone, hasNumber);
      LegacyUnfold(Pushed(date, ts), st);
      r, hasNumber := TakeToken(proxy, date, day, time, zone, hasNumber);
      if !r.Accept? {
        return;
      }
      StepZoneOk(date, ts, st);
      TailOk(proxy.Tokens());
      ts := proxy.Tokens();
      date := proxy.NextDate();
      PushedBack(date, ts);
    }
    LegacyUnfold([], StateOf(day, time, zone, hasNumber));
    return Accept(());
  }

  /** The tokens with the one just taken put back. */
  ghost function Pushed(date: DateUnit, ts: Tokens): Tokens {
    if date.StringEnd? then [] else [date] + ts
  }

  lemma PushedBack(date: DateUnit, all: Tokens)
    requires date == Head(all) && (date.StringEnd? <==> all == [])
    ensures Pushed(date, Tail(all)) == all
  {
  }

  lemma DayViewLength(day: DayValue)
    requires day.Valid()
    ensures |day.View()| == day.index
  {
  }

  // ---------------------------------------------------------------------------------------------
  // The whole parser

  ghost predicate FieldsIn(time: seq<int>, f: Fields) {
    && |time| == DATE_LENGTH
    && time[YEAR] == f.year && time[MONTH] == f.month && time[DAYS] == f.day
    && time[HOUR] == f.hour && time[MIN] == f.min && time[SEC] == f.sec && time[MS] == f.ms
    && time[TIMEZONE] == f.zone
  }

  /** The three setters, in their order. */
  method SetFields(day: DayValue, tv: TimeValue, zone: TimeZone, time: array<int>) returns (r: Outcome<()>)
    requires day.Valid() && tv.Valid() && time.Length == DATE_LENGTH && time != day.data && time != tv.data
    requires day.data != tv.data
    modifies time, day.data
    ensures match old(AllFields(day.View(), day.month, day.isIsoFlag, tv.View(), zone.View())) {
              case Accept(f) => r.Accept? && FieldsIn(time[..], f)
              case _ => r.Reject?
            }
  {
    hide ZoneSeconds, TimeIsValid, DayFields, TimeAt, DayValue.View, TimeValue.View;
    var ok := zone.SetTimeZone(time);
    if ok {
      ok := tv.SetTimeValue(time);
    }
    if ok {
      ghost var filled := time[..];
      assert filled[HOUR + 0] == TimeAt(tv.View(), 0) && filled[HOUR + 1] == TimeAt(tv.View(), 1);
      assert filled[HOUR + 2] == TimeAt(tv.View(), 2) && filled[HOUR + 3] == TimeAt(tv.View(), 3);
      ok := day.SetDayValue(time);
    }
    if ok {
      return Accept(());
    }
    return Reject;
  }

  /** `DateParse::ParseDateString`: for every text the answer and the fields that the grammar gives, and every
      accepted date has fields in range. */
  method ParseDateString(s: string, time: array<int>) returns (r: Outcome<()>)
    requires time.Length == DATE_LENGTH
    modifies time
    ensures match ParseText(s) {
              case Accept(f) => r.Accept? && FieldsIn(time[..], f) && FieldsOk(f)
              case Reject => r.Reject?
              case Undefined => r.Undefined?
            }
  {
    hide Lex, IsoDate, IsoTime, LegacyDates, AllFields, NumbersOk, FieldsIn, FieldsOk,
         DateProxy.Valid, DateProxy.Tokens, DayValue.View, TimeValue.View;
    ParsedFieldsOk(s);
    LexNumbersOk(s);
    IsoDateOk(Lex(s));
    var proxy := new DateProxy(s);
    var day := new DayValue();
    var tv := new TimeValue();
    var zone := new TimeZone();
    var isIso := IsIsoDateTime(proxy, day);
    if isIso {
      r := ParseIsoDateTime(proxy, day, tv, zone);
    } else {
      DayViewLength(day);
      r := ParseLegacyDates(proxy, day, tv, zone);
    }
    if r.Accept? {
      r := SetFields(day, tv, zone, time);
    }
  }
}
