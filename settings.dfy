/**
 * Construction of an analysis period (ladybug/analysisperiod.py, AnalysisPeriod.__init__ up to the
 * timestamp computation): falsy arguments replaced by defaults, the end day clamped to the end
 * month, the two boundary DateTimes built, the overnight and reversed flags, and the timestep
 * check; and the daily hour window `isPossibleHour`.
 */
module PeriodSettings {
  import opened Results
  import opened DateTimes
  import opened PyStrings

  /** The accepted samples per hour, each with the minutes between two samples (line 28). */
  const ValidTimesteps: map<int, int> :=
    map[1 := 60, 2 := 30, 3 := 20, 4 := 15, 5 := 12, 6 := 10,
        10 := 6, 12 := 5, 15 := 4, 20 := 3, 30 := 2, 60 := 1]

  /**
   * A constructor argument as the Python code receives it: omitted or None (`Missing`), an integer
   * from a caller, or a string from the text-form parser.
   */
  datatype Field = Missing | Num(n: int) | Text(s: string)

  /** The exceptions construction and parsing can raise. */
  datatype Error =
    | NotAnInteger                              // int() of a string that is not an integer
    | MonthOutOfTable                           // IndexError: end month outside the month table
    | TextEndMonth                              // TypeError: a string end month minus 1 when clamping
    | InvalidDateTime                           // DateTime rejects a month, day or hour
    | InvalidTimestep                           // ValueError: timestep not a key of ValidTimesteps
    | WrongFieldCount                           // the text form does not split into seven fields
    | Unparsable(cause: Error)                  // fromAnalysisPeriodString re-raises as ValueError
    | NotConvertible(text: string, cause: Error) // fromAnalysisPeriod re-raises as ValueError

  /** Python truthiness: None, 0 and the empty string are false. */
  predicate Truthy(f: Field) {
    match f
    case Missing => false
    case Num(n) => n != 0
    case Text(s) => s != ""
  }

  /** `f or default` */
  function OrDefault(f: Field, default: int): Field {
    if Truthy(f) then f else Num(default)
  }

  /** `int(f)` */
  function ToInt(f: Field): Result<int, Error>
    requires f != Missing
  {
    match f
    case Num(n) => Ok(n)
    case Text(s) =>
      match ParseInt(s)
      case Some(n) => Ok(n)
      case None => Err(NotAnInteger)
  }

  /** Python indexing of a tuple, where a negative index counts from the end. */
  function PyIndex(t: seq<int>, k: int): int
    requires -|t| <= k < |t|
  {
    if k < 0 then t[|t| + k] else t[k]
  }

  /**
   * The constructor's fields apart from the timestamps: the two boundaries, the overnight and
   * reversed flags and the samples per hour.
   */
  datatype Settings = Settings(stTime: DateTime, endTime: DateTime, overnight: bool,
                               reversed: bool, timestep: int)

  /** What a successful construction guarantees about its fields. */
  predicate ValidSettings(s: Settings) {
    && IsValid(s.stTime) && s.stTime.minute == 0
    && IsValid(s.endTime) && s.endTime.minute == 0
    && s.overnight == (s.stTime.hour > s.endTime.hour)
    && s.reversed == (Hoy(s.stTime) > Hoy(s.endTime))
    && s.timestep in ValidTimesteps
  }

  /** The period built with no arguments: 1 January 00:00 to 31 December 23:00. */
  function DefaultSettings(timestep: int): Settings {
    Settings(DateTime(1, 1, 0, 0), DateTime(12, 31, 23, 0), false, false, timestep)
  }

  function Min(a: int, b: int): int {
    if a <= b then a else b
  }

  /** Line 48: `DateTime(int(stMonth), int(stDay), int(stHour))`, each `int()` in turn. */
  function StartTime(stMonth: Field, stDay: Field, stHour: Field): (r: Result<DateTime, Error>)
    requires stMonth != Missing && stDay != Missing && stHour != Missing
    ensures r.Ok? ==> IsValid(r.value) && r.value.minute == 0
    ensures r.Ok? ==> && ToInt(stMonth) == Ok(r.value.month) && ToInt(stDay) == Ok(r.value.day)
                      && ToInt(stHour) == Ok(r.value.hour)
    ensures !(ToInt(stMonth).Ok? && ToInt(stDay).Ok? && ToInt(stHour).Ok?) ==> r == Err(NotAnInteger)
    ensures ToInt(stMonth).Ok? && ToInt(stDay).Ok? && ToInt(stHour).Ok?
            && !IsValid(DateTime(ToInt(stMonth).value, ToInt(stDay).value, ToInt(stHour).value, 0))
            ==> r == Err(InvalidDateTime)
  {
    var sm :- ToInt(stMonth);
    var sd :- ToInt(stDay);
    var sh :- ToInt(stHour);
    var t := DateTime(sm, sd, sh, 0);
    if IsValid(t) then Ok(t) else Err(InvalidDateTime)
  }

  /**
   * Lines 54-61: an end day past the end of the month is lowered to the month's length, looked
   * up with Python tuple indexing (IndexError outside the table, TypeError for a string month),
   * then `DateTime(int(endMonth), int(endDay), int(endHour))`.
   */
  function EndTime(endMonth: Field, endDay: Field, endHour: Field): (r: Result<DateTime, Error>)
    requires endMonth != Missing && endDay != Missing && endHour != Missing
    ensures r.Ok? ==> IsValid(r.value) && r.value.minute == 0
    ensures r.Ok? ==> && ToInt(endMonth) == Ok(r.value.month) && ToInt(endHour) == Ok(r.value.hour)
                      && ToInt(endDay).Ok?
                      && r.value.day == Min(ToInt(endDay).value, DaysInMonth(r.value.month))
    ensures !(ToInt(endDay).Ok? && ToInt(endMonth).Ok?) ==> r == Err(NotAnInteger)
    ensures ToInt(endDay).Ok? && ToInt(endMonth).Ok? && !(-11 <= ToInt(endMonth).value <= 12)
            ==> r == Err(MonthOutOfTable)
    ensures r.Err? ==> r.error in {NotAnInteger, MonthOutOfTable, TextEndMonth, InvalidDateTime}
  {
    var ed :- ToInt(endDay);
    var em :- ToInt(endMonth);
    if !(-11 <= em <= 12) then Err(MonthOutOfTable)
    else
      var monthLength := PyIndex(NumOfDaysEachMonth, em - 1);
      var day :- if ed <= monthLength then Ok(ed)
                 else if endMonth.Text? then Err(TextEndMonth)
                 else Ok(monthLength);
      var eh :- ToInt(endHour);
      var t := DateTime(em, day, eh, 0);
      if IsValid(t) then Ok(t) else Err(InvalidDateTime)
  }

  /**
   * Lines 38-84: the arguments after `or`-defaulting, the two boundaries, the flags, and the
   * timestep check. Python evaluates these in order and raises at the first failure; the Error
   * says which.
   */
  function Normalize(stMonth: Field, stDay: Field, stHour: Field,
                     endMonth: Field, endDay: Field, endHour: Field,
                     timestep: Field): (r: Result<Settings, Error>)
    ensures r.Ok? ==> ValidSettings(r.value)
    ensures r.Ok? ==> OrDefault(timestep, 1) == Num(r.value.timestep)
    ensures !(OrDefault(timestep, 1).Num? && OrDefault(timestep, 1).n in ValidTimesteps) ==> r.Err?
    ensures var start := StartTime(OrDefault(stMonth, 1), OrDefault(stDay, 1), OrDefault(stHour, 0));
            var end := EndTime(OrDefault(endMonth, 12), OrDefault(endDay, 31), OrDefault(endHour, 23));
            && (start.Err? ==> r == Err(start.error))
            && (start.Ok? && end.Err? ==> r == Err(end.error))
            && (start.Ok? && end.Ok?
                && !(OrDefault(timestep, 1).Num? && OrDefault(timestep, 1).n in ValidTimesteps)
                ==> r == Err(InvalidTimestep))
    ensures r.Err? ==> r.error in {NotAnInteger, MonthOutOfTable, TextEndMonth, InvalidDateTime,
                                   InvalidTimestep}
  {
    var stTime :- StartTime(OrDefault(stMonth, 1), OrDefault(stDay, 1), OrDefault(stHour, 0));
    var endTime :- EndTime(OrDefault(endMonth, 12), OrDefault(endDay, 31), OrDefault(endHour, 23));
    var timestep := OrDefault(timestep, 1);
    if !(timestep.Num? && timestep.n in ValidTimesteps) then Err(InvalidTimestep)
    else
      Ok(Settings(stTime, endTime, stTime.hour > endTime.hour, Hoy(stTime) > Hoy(endTime),
                  timestep.n))
  }

  /**
   * Each field of a constructed period is `int()` of its argument after `or`-defaulting, except
   * the end day, which is that value lowered to the length of the end month.
   */
  lemma NormalizeFields(stMonth: Field, stDay: Field, stHour: Field, endMonth: Field,
                        endDay: Field, endHour: Field, timestep: Field)
    ensures var r := Normalize(stMonth, stDay, stHour, endMonth, endDay, endHour, timestep);
            r.Ok? ==>
              && ToInt(OrDefault(stMonth, 1)) == Ok(r.value.stTime.month)
              && ToInt(OrDefault(stDay, 1)) == Ok(r.value.stTime.day)
              && ToInt(OrDefault(stHour, 0)) == Ok(r.value.stTime.hour)
              && ToInt(OrDefault(endMonth, 12)) == Ok(r.value.endTime.month)
              && ToInt(OrDefault(endHour, 23)) == Ok(r.value.endTime.hour)
              && ToInt(OrDefault(endDay, 31)).Ok?
              && r.value.endTime.day
                 == Min(ToInt(OrDefault(endDay, 31)).value, DaysInMonth(r.value.endTime.month))
  {
  }

  /**
   * Arguments that are truthy and convert with `int()` to the fields of a valid period build
   * exactly that period: a day within its month is not clamped and the flags are recomputed to
   * the same values.
   */
  lemma NormalizeOfFields(stMonth: Field, stDay: Field, stHour: Field, endMonth: Field,
                          endDay: Field, endHour: Field, s: Settings)
    requires ValidSettings(s)
    requires Truthy(stMonth) && ToInt(stMonth) == Ok(s.stTime.month)
    requires Truthy(stDay) && ToInt(stDay) == Ok(s.stTime.day)
    requires Truthy(stHour) && ToInt(stHour) == Ok(s.stTime.hour)
    requires Truthy(endMonth) && ToInt(endMonth) == Ok(s.endTime.month)
    requires Truthy(endDay) && ToInt(endDay) == Ok(s.endTime.day)
    requires Truthy(endHour) && ToInt(endHour) == Ok(s.endTime.hour)
    ensures Normalize(stMonth, stDay, stHour, endMonth, endDay, endHour, Num(s.timestep)) == Ok(s)
  {
    var st, en := s.stTime, s.endTime;
    TruthyKeeps(stMonth, 1);
    TruthyKeeps(stDay, 1);
    TruthyKeeps(stHour, 0);
    TruthyKeeps(endMonth, 12);
    TruthyKeeps(endDay, 31);
    TruthyKeeps(endHour, 23);
    StartTimeOfFields(stMonth, stDay, stHour, st);
    EndTimeOfFields(endMonth, endDay, endHour, en);
    NormalizeOfTimes(stMonth, stDay, stHour, endMonth, endDay, endHour, st, en, s.timestep);
    assert Settings(st, en, st.hour > en.hour, Hoy(st) > Hoy(en), s.timestep) == s;
  }

  /** Once both boundaries are built and the timestep is valid, the period is those values. */
  lemma NormalizeOfTimes(stMonth: Field, stDay: Field, stHour: Field, endMonth: Field,
                         endDay: Field, endHour: Field, st: DateTime, en: DateTime, ts: int)
    requires Truthy(stMonth) && Truthy(stDay) && Truthy(stHour)
    requires Truthy(endMonth) && Truthy(endDay) && Truthy(endHour)
    requires StartTime(stMonth, stDay, stHour) == Ok(st)
    requires EndTime(endMonth, endDay, endHour) == Ok(en)
    requires ts in ValidTimesteps
    ensures Normalize(stMonth, stDay, stHour, endMonth, endDay, endHour, Num(ts))
            == Ok(Settings(st, en, st.hour > en.hour, Hoy(st) > Hoy(en), ts))
  {
    TruthyKeeps(stMonth, 1);
    TruthyKeeps(stDay, 1);
    TruthyKeeps(stHour, 0);
    TruthyKeeps(endMonth, 12);
    TruthyKeeps(endDay, 31);
    TruthyKeeps(endHour, 23);
  }

  /** `x or d` is `x` itself when `x` is truthy. */
  lemma TruthyKeeps(f: Field, d: int)
    requires Truthy(f)
    ensures OrDefault(f, d) == f
  {
  }

  /** A start time whose fields convert back from the arguments is rebuilt unchanged. */
  lemma StartTimeOfFields(stMonth: Field, stDay: Field, stHour: Field, st: DateTime)
    requires IsValid(st) && st.minute == 0
    requires stMonth != Missing && stDay != Missing && stHour != Missing
    requires ToInt(stMonth) == Ok(st.month) && ToInt(stDay) == Ok(st.day)
    requires ToInt(stHour) == Ok(st.hour)
    ensures StartTime(stMonth, stDay, stHour) == Ok(st)
  {
    assert DateTime(st.month, st.day, st.hour, 0) == st;
  }

  /** An end time whose fields convert back from the arguments is rebuilt unchanged. */
  lemma EndTimeOfFields(endMonth: Field, endDay: Field, endHour: Field, en: DateTime)
    requires IsValid(en) && en.minute == 0
    requires endMonth != Missing && endDay != Missing && endHour != Missing
    requires ToInt(endMonth) == Ok(en.month) && ToInt(endDay) == Ok(en.day)
    requires ToInt(endHour) == Ok(en.hour)
    ensures EndTime(endMonth, endDay, endHour) == Ok(en)
  {
    assert PyIndex(NumOfDaysEachMonth, en.month - 1) == DaysInMonth(en.month);
    assert DateTime(en.month, en.day, en.hour, 0) == en;
  }

  /** Omitted or zero arguments give the full year sampled once an hour. */
  lemma FalsyArgumentsGiveDefaults()
    ensures Normalize(Missing, Missing, Missing, Missing, Missing, Missing, Missing)
            == Ok(DefaultSettings(1))
    ensures Normalize(Num(0), Num(0), Num(0), Num(0), Num(0), Num(0), Num(0))
            == Ok(DefaultSettings(1))
    ensures Normalize(Text(""), Text(""), Text(""), Text(""), Text(""), Text(""), Text(""))
            == Ok(DefaultSettings(1))
  {
    YearEnds();
    var st, en := DateTime(1, 1, 0, 0), DateTime(12, 31, 23, 0);
    assert StartTime(Num(1), Num(1), Num(0)) == Ok(st);
    assert EndTime(Num(12), Num(31), Num(23)) == Ok(en);
  }

  /** A numeric end hour of 0 is falsy and becomes 23; the string "0" is truthy and stays 0. */
  lemma EndHourZero(stMonth: Field, stDay: Field, stHour: Field, endMonth: Field, endDay: Field,
                    timestep: Field)
    ensures var r := Normalize(stMonth, stDay, stHour, endMonth, endDay, Num(0), timestep);
            r.Ok? ==> r.value.endTime.hour == 23
    ensures var r := Normalize(stMonth, stDay, stHour, endMonth, endDay, Text("0"), timestep);
            r.Ok? ==> r.value.endTime.hour == 0
  {
    NormalizeFields(stMonth, stDay, stHour, endMonth, endDay, Num(0), timestep);
    NormalizeFields(stMonth, stDay, stHour, endMonth, endDay, Text("0"), timestep);
    assert ToInt(Text("0")) == Ok(0) by {
      assert IsDigits("0");
      assert DigitsValue("0") == 0 by { assert "0"[..0] == ""; }
      assert ParseInt("0") == Some(0);
    }
  }

  /** Clamping only lowers an end day that exceeds its month; a day within the month is kept. */
  lemma ClampKeepsValidEndDay(stMonth: Field, stDay: Field, stHour: Field,
                              endMonth: int, endDay: int, endHour: Field, timestep: Field)
    requires 1 <= endMonth <= 12 && 1 <= endDay
    ensures var r := Normalize(stMonth, stDay, stHour, Num(endMonth), Num(endDay), endHour, timestep);
            r.Ok? ==> r.value.endTime.month == endMonth
                      && (endDay <= DaysInMonth(endMonth) ==> r.value.endTime.day == endDay)
                      && (endDay > DaysInMonth(endMonth) ==> r.value.endTime.day == DaysInMonth(endMonth))
  {
  }

  /**
   * A positive numeric end day past its month is lowered to the month's length and never rejected:
   * construction goes on, given a valid start, end month, end hour and timestep.
   */
  lemma NumericEndDayClamped(stMonth: Field, stDay: Field, stHour: Field, endMonth: int,
                             endDay: int, endHour: Field, timestep: Field)
    requires StartTime(OrDefault(stMonth, 1), OrDefault(stDay, 1), OrDefault(stHour, 0)).Ok?
    requires 1 <= endMonth <= 12 && 1 <= endDay
    requires ToInt(OrDefault(endHour, 23)).Ok? && 0 <= ToInt(OrDefault(endHour, 23)).value <= 23
    requires OrDefault(timestep, 1).Num? && OrDefault(timestep, 1).n in ValidTimesteps
    ensures var r := Normalize(stMonth, stDay, stHour, Num(endMonth), Num(endDay), endHour, timestep);
            && r.Ok?
            && r.value.endTime == DateTime(endMonth, Min(endDay, DaysInMonth(endMonth)),
                                           ToInt(OrDefault(endHour, 23)).value, 0)
  {
    var day := Min(endDay, DaysInMonth(endMonth));
    var hour := ToInt(OrDefault(endHour, 23)).value;
    TruthyKeeps(Num(endMonth), 12);
    TruthyKeeps(Num(endDay), 31);
    assert PyIndex(NumOfDaysEachMonth, endMonth - 1) == DaysInMonth(endMonth);
    assert IsValid(DateTime(endMonth, day, hour, 0)) by {
      assert NumOfDaysEachMonth[endMonth - 1] >= 28;
    }
    assert EndTime(Num(endMonth), Num(endDay), OrDefault(endHour, 23))
           == Ok(DateTime(endMonth, day, hour, 0));
  }

  /** A string end month that needs clamping makes the constructor raise TypeError. */
  lemma ClampTextEndMonthRaises(stMonth: Field, stDay: Field, stHour: Field, endMonth: string,
                                endDay: Field, endHour: Field, timestep: Field)
    requires Truthy(stMonth) && Truthy(stDay) && Truthy(stHour) && Truthy(endDay)
    requires StartTime(stMonth, stDay, stHour).Ok?
    requires endMonth != "" && ParseInt(endMonth).Some? && 1 <= ParseInt(endMonth).value <= 12
    requires ToInt(endDay).Ok? && ToInt(endDay).value > DaysInMonth(ParseInt(endMonth).value)
    ensures Normalize(stMonth, stDay, stHour, Text(endMonth), endDay, endHour, timestep)
            == Err(TextEndMonth)
  {
    TruthyKeeps(stMonth, 1);
    TruthyKeeps(stDay, 1);
    TruthyKeeps(stHour, 0);
    TruthyKeeps(endDay, 31);
    var m := ParseInt(endMonth).value;
    assert PyIndex(NumOfDaysEachMonth, m - 1) == DaysInMonth(m);
    assert EndTime(Text(endMonth), endDay, OrDefault(endHour, 23)) == Err(TextEndMonth);
  }

  /** `timedelta(1 / (24.0 * timestep))` expressed in minutes. */
  function StepMinutes(timestep: int): int
    requires timestep > 0
  {
    1440 / (24 * timestep)
  }

  /**
   * The step of line 88 is exactly the table's value at line 28, and a whole number of steps
   * makes an hour.
   */
  lemma StepIsTableValue(timestep: int)
    requires timestep in ValidTimesteps
    ensures timestep > 0
    ensures StepMinutes(timestep) == ValidTimesteps[timestep]
    ensures StepMinutes(timestep) * timestep == 60
  {
  }

  /** The accepted timesteps are exactly the divisors of 60. */
  lemma TimestepsAreDivisorsOfSixty(timestep: int)
    ensures timestep in ValidTimesteps <==> 1 <= timestep <= 60 && 60 % timestep == 0
  {
  }

  /** Lines 68-79 classify by hour of day and by position in the year. */
  lemma FlagsMeaning(s: Settings)
    requires ValidSettings(s)
    ensures s.overnight <==> s.endTime.hour < s.stTime.hour
    ensures s.reversed <==> Before(s.endTime, s.stTime)
  {
    MoyOrder(s.endTime, s.stTime);
  }

  /**
   * Lines 154-162: whether a (possibly fractional) hour of the day lies in the daily window.
   * An hour past 23 is first cut to its whole part when hour 0 itself is in the window.
   */
  function IsPossibleHour(s: Settings, hour: real): bool
    decreases if hour > 23.0 then 1 else 0
  {
    var h := if hour > 23.0 && IsPossibleHour(s, 0.0) then hour.Floor as real else hour;
    if !s.overnight then s.stTime.hour as real <= h <= s.endTime.hour as real
    else (s.stTime.hour as real <= h <= 23.0) || (0.0 <= h <= s.endTime.hour as real)
  }

  /**
   * Within the day the window is [start hour, end hour], or for an overnight window the two
   * pieces [start hour, 23] and [0, end hour]. A fraction past the end hour is outside, so
   * 17:15 is excluded by a window ending at hour 17.
   */
  lemma PossibleHourWithinDay(s: Settings, hour: real)
    requires ValidSettings(s) && 0.0 <= hour <= 23.0
    ensures IsPossibleHour(s, hour) <==>
              if !s.overnight then s.stTime.hour as real <= hour <= s.endTime.hour as real
              else s.stTime.hour as real <= hour || hour <= s.endTime.hour as real
  {
  }

  /**
   * During the last hour of the day, 23 < h < 24, the floor to 23 applies exactly when hour 0 is
   * in the window, so such an hour is in the window exactly for an overnight window or for the
   * whole-day window 0 to 23.
   */
  lemma PossibleHourLastHour(s: Settings, hour: real)
    requires ValidSettings(s) && 23.0 < hour < 24.0
    ensures IsPossibleHour(s, hour) <==>
              s.overnight || (s.stTime.hour == 0 && s.endTime.hour == 23)
  {
    assert IsPossibleHour(s, 0.0) <==> s.overnight || s.stTime.hour == 0;
    assert hour.Floor == 23;
  }
}
