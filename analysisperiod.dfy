/**
 * The AnalysisPeriod object (ladybug/analysisperiod.py): its fields, the constructor that fills
 * them and computes `_timestampsData` in place, the walk methods `_calcTimestamps` and
 * `_calculateTimestamps`, the read views `intHoys`, `isAnnual` and `isTimeIncluded`, and the
 * named constructors `fromAnalysisPeriodString` and `fromAnalysisPeriod`.
 *
 * `__init__` raises on bad arguments while a Dafny constructor cannot fail, so the arguments are
 * checked by `Normalize` and the static method `New` builds the object only from valid settings.
 */
module AnalysisPeriods {
  import opened Results
  import opened DateTimes
  import opened PeriodSettings
  import opened PeriodTimestamps
  import opened PeriodText

  class AnalysisPeriod {
    var stTime: DateTime
    var endTime: DateTime
    var overnight: bool
    var reversed: bool
    var timestep: int
    /** Minutes between two samples: `timedelta(1 / (24.0 * timestep))`. */
    var minuteIntervals: int
    /** Minutes of year in the period, in the order the walk appends them. */
    var timestampsData: seq<int>

    /** The fields the timestamps are computed from. */
    function Fields(): Settings
      reads this
    {
      Settings(stTime, endTime, overnight, reversed, timestep)
    }

    /** A period as the constructor leaves it. */
    ghost predicate Valid()
      reads this
    {
      && ValidSettings(Fields())
      && minuteIntervals == Step(Fields())
      && timestampsData == Timestamps(Fields())
    }

    /** Lines 48-97 once the arguments are known to be valid: fields, step, then the walk. */
    constructor (s: Settings)
      requires ValidSettings(s)
      ensures Fields() == s && Valid()
    {
      stTime := s.stTime;
      endTime := s.endTime;
      overnight := s.overnight;
      reversed := s.reversed;
      timestep := s.timestep;
      StepIsTableValue(s.timestep);
      minuteIntervals := StepMinutes(s.timestep);
      timestampsData := [];
      new;
      CalculateTimestamps();
      assert Fields() == s;
      assert [] + Timestamps(s) == Timestamps(s);
    }

    /**
     * `_calcTimestamps(st, end)`: walk a pointer from `st` to `end` in steps of
     * `minuteIntervals`, appending each minute in the daily window, then, when the pointer has
     * stopped in hour 23 of a window holding hour 0, append the `timestep - 1` minutes after
     * `end` without checking the window.
     */
    method CalcTimestamps(st: DateTime, end: DateTime)
      requires IsValid(st) && IsValid(end)
      requires timestep in ValidTimesteps && minuteIntervals == Step(Fields())
      modifies this`timestampsData
      ensures timestampsData == old(timestampsData)
                               + PeriodTimestamps.CalcTimestamps(Fields(), Moy(st), Moy(end))
    {
      var s := Fields();
      StepIsTableValue(s.timestep);
      var first, last := Moy(st), Moy(end);
      ghost var walked := Walk(s, minuteIntervals, first, last);
      ghost var fires := CorrectionFires(s, Past(minuteIntervals, first, last));
      ghost var ticks := Ticks(last, minuteIntervals, s.timestep - 1);
      assert PeriodTimestamps.CalcTimestamps(s, first, last)
             == walked + (if fires then ticks else []);
      ghost var start := timestampsData;
      var curr := WalkWindow(s, first, last);
      if CorrectionFires(s, curr) {
        AppendTicks(last, timestep - 1);
        ConcatAssoc(start, walked, ticks);
      } else {
        assert walked + [] == walked;
      }
      assert Fields() == s;
    }

    /**
     * The while loop of `_calcTimestamps`: append each minute from `first` to `last`, in steps of
     * `minuteIntervals`, that falls in the daily window, and give back where the pointer stopped.
     */
    method WalkWindow(s: Settings, first: int, last: int) returns (curr: int)
      requires s == Fields() && minuteIntervals > 0
      modifies this`timestampsData
      ensures timestampsData == old(timestampsData) + Walk(s, minuteIntervals, first, last)
      ensures curr == Past(minuteIntervals, first, last)
    {
      var step := minuteIntervals;
      curr := first;
      while curr <= last
        invariant old(timestampsData) + Walk(s, step, first, last)
                  == timestampsData + Walk(s, step, curr, last)
        invariant Past(step, curr, last) == Past(step, first, last)
        decreases last - curr
      {
        if IsPossibleHour(s, FracHour(curr)) {
          timestampsData := timestampsData + [curr];
        }
        curr := curr + step;
      }
    }

    /** The correction loop of `_calcTimestamps`: `n` more steps after `last`, unchecked. */
    method AppendTicks(last: int, n: nat)
      modifies this`timestampsData
      ensures timestampsData == old(timestampsData) + Ticks(last, minuteIntervals, n)
    {
      var step := minuteIntervals;
      var curr := last;
      for i := 0 to n
        invariant curr == last + i * step
        invariant timestampsData == old(timestampsData) + Ticks(last, step, i)
      {
        TicksNext(last, step, i);
        curr := curr + step;
        timestampsData := timestampsData + [curr];
      }
    }

    /**
     * `_calculateTimestamps()`: one walk from the start to the end, or for a reversed period a
     * walk to 31 December 23:00 followed by a walk from 1 January 00:00.
     */
    method CalculateTimestamps()
      requires IsValid(stTime) && IsValid(endTime) && timestep in ValidTimesteps
      requires minuteIntervals == Step(Fields())
      modifies this`timestampsData
      ensures timestampsData == old(timestampsData) + Timestamps(Fields())
    {
      ghost var s, start := Fields(), timestampsData;
      if !reversed {
        CalcTimestamps(stTime, endTime);
      } else {
        ghost var tail := PeriodTimestamps.CalcTimestamps(s, Moy(s.stTime), LastHourMoy);
        ghost var head := PeriodTimestamps.CalcTimestamps(s, 0, Moy(s.endTime));
        assert Timestamps(s) == tail + head;
        var lastHour, firstHour := FromHoy(8759), FromHoy(0);
        CalcTimestamps(stTime, lastHour);
        assert Fields() == s;
        CalcTimestamps(firstHour, endTime);
        assert Fields() == s;
        ConcatAssoc(start, tail, head);
      }
    }

    /** `intHoys`: the hour of year of each stored minute, in stored order. */
    function IntHoys(): (r: seq<int>)
      reads this
      ensures |r| == |timestampsData|
      ensures forall i :: 0 <= i < |r| ==> r[i] * 60 <= timestampsData[i] < r[i] * 60 + 60
    {
      HoursOf(timestampsData)
    }

    /** `isAnnual`: the number of samples divided by the timestep is 8760. */
    function IsAnnual(): (r: bool)
      reads this
      requires timestep > 0
      ensures r <==> HoursPerYear * timestep <= |timestampsData| < (HoursPerYear + 1) * timestep
    {
      Annual(|timestampsData|, timestep)
    }

    /** `isTimeIncluded(time)`: whether the time's minute of year is stored. */
    function IsTimeIncluded(time: DateTime): (r: bool)
      reads this
      requires Valid() && IsValid(time)
      ensures r <==> InPeriod(Fields(), Moy(time))
    {
      TimestampsMembers(Fields(), Moy(time));
      Moy(time) in timestampsData
    }

    /**
     * `AnalysisPeriod(stMonth, stDay, stHour, endMonth, endDay, endHour, timestep)`, which raises
     * where `Normalize` fails.
     */
    static method New(stMonth: Field, stDay: Field, stHour: Field, endMonth: Field,
                      endDay: Field, endHour: Field, timestep: Field)
      returns (r: Result<AnalysisPeriod, Error>)
      ensures var n := Normalize(stMonth, stDay, stHour, endMonth, endDay, endHour, timestep);
              && (r.Ok? <==> n.Ok?)
              && (r.Ok? ==> fresh(r.value) && r.value.Valid() && r.value.Fields() == n.value)
              && (r.Err? ==> r.error == n.error)
    {
      var n := Normalize(stMonth, stDay, stHour, endMonth, endDay, endHour, timestep);
      if n.Err? {
        return Err(n.error);
      }
      var p := new AnalysisPeriod(n.value);
      return Ok(p);
    }

    /** `AnalysisPeriod.fromAnalysisPeriodString(text)` */
    static method FromAnalysisPeriodString(text: string) returns (r: Result<AnalysisPeriod, Error>)
      ensures var q := ParseAnalysisPeriod(text);
              && (r.Ok? <==> q.Ok?)
              && (r.Ok? ==> fresh(r.value) && r.value.Valid() && r.value.Fields() == q.value)
              && (r.Err? ==> r.error == q.error)
    {
      var q := ParseAnalysisPeriod(text);
      if q.Err? {
        return Err(q.error);
      }
      var p := new AnalysisPeriod(q.value);
      return Ok(p);
    }

    /**
     * `AnalysisPeriod.fromAnalysisPeriod(value)`: a falsy value gives the default period, a
     * period is returned as it is, a string is parsed (its error re-raised as ValueError naming
     * the string), and any other value falls through and gives None.
     */
    static method FromAnalysisPeriod(value: PeriodInput) returns (r: Result<AnalysisPeriod?, Error>)
      ensures !InputTruthy(value) ==>
                r.Ok? && r.value != null && fresh(r.value) && r.value.Valid()
                && r.value.Fields() == DefaultSettings(1)
      ensures value.PeriodObject? ==> r == Ok(value.period)
      ensures value.TextInput? && InputTruthy(value) ==>
                var q := ParseAnalysisPeriod(value.text);
                && (r.Ok? <==> q.Ok?)
                && (r.Ok? ==> r.value != null && fresh(r.value) && r.value.Valid()
                              && r.value.Fields() == q.value)
                && (r.Err? ==> r.error == NotConvertible(value.text, q.error))
      ensures value.OtherInput? && InputTruthy(value) ==> r == Ok(null)
    {
      if !InputTruthy(value) {
        FalsyArgumentsGiveDefaults();
        var p := new AnalysisPeriod(DefaultSettings(1));
        return Ok(p);
      }
      match value
      case PeriodObject(p) =>
        return Ok(p);
      case TextInput(text) =>
        var q := FromAnalysisPeriodString(text);
        if q.Err? {
          return Err(NotConvertible(text, q.error));
        }
        return Ok(q.value);
      case OtherInput(_) =>
        return Ok(null);
    }
  }

  /**
   * What `fromAnalysisPeriod` may be handed: None, an object with `isAnalysisPeriod`, a `str`,
   * or anything else, with its Python truthiness.
   */
  datatype PeriodInput =
    | NoneInput
    | PeriodObject(period: AnalysisPeriod)
    | TextInput(text: string)
    | OtherInput(truthy: bool)

  /** `not value` at line 111: None, the empty string and falsy other values. */
  predicate InputTruthy(value: PeriodInput) {
    match value
    case NoneInput => false
    case PeriodObject(_) => true
    case TextInput(text) => text != ""
    case OtherInput(truthy) => truthy
  }

  lemma ConcatAssoc(a: seq<int>, b: seq<int>, c: seq<int>)
    ensures (a + b) + c == a + (b + c)
  {
  }
}
