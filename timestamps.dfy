/**
 * What `_calcTimestamps` and `_calculateTimestamps` (ladybug/analysisperiod.py:164-199) append,
 * as functions of the settings, and the properties of that list: which minutes of the year it
 * holds, in which order, within which bounds, and how many for the full year.
 *
 * The walk pointer is a minute of year. The Python code walks a `datetime` and appends
 * `DateTime(curr.month, curr.day, curr.hour, curr.minute).moy`; every value appended lies in
 * the year, so that minute of year is the pointer itself.
 */
module PeriodTimestamps {
  import opened DateTimes
  import opened PeriodSettings

  // ---------------------------------------------------------------- arithmetic on the step grid

  lemma MulMono(a: int, b: int, step: int)
    requires a < b && step > 0
    ensures a * step < b * step
  {
  }

  /** Euclidean division is determined by its quotient and remainder. */
  lemma DivModUnique(a: int, step: int, q: int, r: int)
    requires step > 0 && a == q * step + r && 0 <= r < step
    ensures a / step == q && a % step == r
  {
    var q', r' := a / step, a % step;
    if q' < q {
      MulMono(q', q, step);
      if q' + 1 < q { MulMono(q' + 1, q, step); }
    } else if q < q' {
      MulMono(q, q', step);
      if q + 1 < q' { MulMono(q + 1, q', step); }
    }
  }

  lemma ModShift(d: int, step: int)
    requires step > 0
    ensures (d + step) % step == d % step
    ensures (d + step) / step == d / step + 1
  {
    DivModUnique(d + step, step, d / step + 1, d % step);
  }

  lemma ModAddAligned(a: int, b: int, step: int)
    requires step > 0 && b % step == 0
    ensures (a + b) % step == a % step
  {
    DivModUnique(a + b, step, a / step + b / step, a % step);
  }

  lemma MultipleAligned(k: int, step: int)
    requires step > 0
    ensures (k * step) % step == 0 && (k * step) / step == k
  {
    DivModUnique(k * step, step, k, 0);
  }

  /** Whole hours lie on the grid of every accepted step. */
  lemma HourAligned(a: int, timestep: int)
    requires timestep in ValidTimesteps && a % 60 == 0
    ensures a % StepMinutes(timestep) == 0
  {
    StepIsTableValue(timestep);
    var step := StepMinutes(timestep);
    var k := a / 60;
    assert a == (k * timestep) * step;
    MultipleAligned(k * timestep, step);
  }

  // ---------------------------------------------------------------- the walk pointer

  /** `curr.hour` of the pointer at minute `p`. */
  function HourOf(p: int): int {
    p % MinutesPerDay / 60
  }

  /** `curr.minute` of the pointer at minute `p`. */
  function MinuteOf(p: int): int {
    p % 60
  }

  /** `curr.hour + curr.minute / 60.0` */
  function FracHour(p: int): real {
    HourOf(p) as real + MinuteOf(p) as real / 60.0
  }

  /** The pointer's fractional hour is a time of day: in [0, 24), and past 23 only during hour 23. */
  lemma FracHourRange(p: int)
    ensures 0 <= HourOf(p) <= 23 && 0 <= MinuteOf(p) < 60
    ensures 0.0 <= FracHour(p) < 24.0
    ensures FracHour(p) > 23.0 <==> HourOf(p) == 23 && MinuteOf(p) > 0
  {
    var h, m := HourOf(p), MinuteOf(p);
    assert 0.0 <= m as real / 60.0 < 1.0;
    assert m > 0 ==> m as real / 60.0 > 0.0;
  }

  /** The pointer's fractional hour is the calendar value's hour and minute. */
  lemma FracHourOfMoy(t: DateTime)
    requires IsValid(t)
    ensures HourOf(Moy(t)) == t.hour && MinuteOf(Moy(t)) == t.minute
    ensures FracHour(Moy(t)) == t.hour as real + t.minute as real / 60.0
  {
  }

  /** Within the hour that starts at a whole hour `h`, the pointer keeps that hour of the day. */
  lemma WithinHour(h: int, x: int)
    requires h % 60 == 0 && h <= x < h + 60
    ensures HourOf(x) == HourOf(h) && MinuteOf(x) == x - h
  {
    var d := h / 60;
    DivModUnique(h, MinutesPerDay, d / 24, 60 * (d % 24));
    DivModUnique(x, MinutesPerDay, d / 24, 60 * (d % 24) + (x - h));
    DivModUnique(60 * (d % 24), 60, d % 24, 0);
    DivModUnique(60 * (d % 24) + (x - h), 60, d % 24, x - h);
    DivModUnique(x, 60, d, x - h);
  }

  /** The minutes between two samples (`self.minuteIntervals`). */
  function Step(s: Settings): (step: int)
    requires s.timestep in ValidTimesteps
    ensures 0 < step <= 60 && step * s.timestep == 60
  {
    StepIsTableValue(s.timestep);
    StepMinutes(s.timestep)
  }

  // ---------------------------------------------------------------- the walk (lines 173-182)

  /**
   * The values the `while curr <= endTime` loop appends when started at `curr`: every pointer up
   * to `end` whose fractional hour is a possible hour.
   */
  function Walk(s: Settings, step: int, curr: int, end: int): seq<int>
    requires step > 0
    decreases end - curr
  {
    if curr > end then []
    else (if IsPossibleHour(s, FracHour(curr)) then [curr] else []) + Walk(s, step, curr + step, end)
  }

  /** The pointer's value when that loop ends. */
  function Past(step: int, curr: int, end: int): int
    requires step > 0
    decreases end - curr
  {
    if curr > end then curr else Past(step, curr + step, end)
  }

  /** The `n` values `end + step`, ..., `end + n * step` of the for loop at lines 188-191. */
  function Ticks(end: int, step: int, n: nat): seq<int> {
    if n == 0 then [] else Ticks(end, step, n - 1) + [end + n * step]
  }

  /** Line 184: the end-of-walk correction runs. */
  predicate CorrectionFires(s: Settings, pointer: int) {
    s.timestep != 1 && HourOf(pointer) == 23 && IsPossibleHour(s, 0.0)
  }

  /** All that one call `_calcTimestamps(st, end)` appends. */
  function CalcTimestamps(s: Settings, st: int, end: int): seq<int>
    requires s.timestep in ValidTimesteps
  {
    var step := Step(s);
    Walk(s, step, st, end)
    + (if CorrectionFires(s, Past(step, st, end)) then Ticks(end, step, s.timestep - 1) else [])
  }

  /** Minute of year of `DateTime.fromHoy(8759)`, 31 December 23:00. */
  const LastHourMoy := 525540

  /** The whole of `_timestampsData` after `_calculateTimestamps`. */
  function Timestamps(s: Settings): seq<int>
    requires IsValid(s.stTime) && IsValid(s.endTime) && s.timestep in ValidTimesteps
  {
    if !s.reversed then CalcTimestamps(s, Moy(s.stTime), Moy(s.endTime))
    else CalcTimestamps(s, Moy(s.stTime), LastHourMoy) + CalcTimestamps(s, 0, Moy(s.endTime))
  }

  // ---------------------------------------------------------------- what the list holds

  /** `x` is a minute the walk from `st` to `end` samples: on the step grid and in the window. */
  predicate Sampled(s: Settings, st: int, end: int, x: int)
    requires s.timestep in ValidTimesteps
  {
    st <= x <= end && x % Step(s) == 0 && IsPossibleHour(s, FracHour(x))
  }

  /**
   * `x` is one of the minutes the correction adds after a walk ending at `end`: the rest of the
   * hour 23 that `end` starts, on the step grid, when the timestep is not 1 and hour 0 is in the
   * window.
   */
  predicate Completed(s: Settings, end: int, x: int)
    requires s.timestep in ValidTimesteps
  {
    && s.timestep != 1 && HourOf(end) == 23 && IsPossibleHour(s, 0.0)
    && end < x < end + 60 && x % Step(s) == 0
  }

  predicate InSpan(s: Settings, st: int, end: int, x: int)
    requires s.timestep in ValidTimesteps
  {
    Sampled(s, st, end, x) || Completed(s, end, x)
  }

  /**
   * The minutes of year the period holds: those of the span from the start to the end, or for a
   * reversed period of the span from the start to 31 December 23:00 and of the span from
   * 1 January 00:00 to the end.
   */
  predicate InPeriod(s: Settings, x: int)
    requires IsValid(s.stTime) && IsValid(s.endTime) && s.timestep in ValidTimesteps
  {
    if !s.reversed then InSpan(s, Moy(s.stTime), Moy(s.endTime), x)
    else InSpan(s, Moy(s.stTime), LastHourMoy, x) || InSpan(s, 0, Moy(s.endTime), x)
  }

  predicate StrictlyIncreasing(q: seq<int>) {
    forall i, j :: 0 <= i < j < |q| ==> q[i] < q[j]
  }

  predicate Distinct(q: seq<int>) {
    forall i, j :: 0 <= i < j < |q| ==> q[i] != q[j]
  }

  // ---------------------------------------------------------------- lemmas about the walk

  /** The walk holds exactly the possible hours among `curr`, `curr + step`, ... up to `end`. */
  lemma {:induction false} WalkMembers(s: Settings, step: int, curr: int, end: int, x: int)
    requires step > 0
    ensures x in Walk(s, step, curr, end) <==>
              curr <= x <= end && (x - curr) % step == 0 && IsPossibleHour(s, FracHour(x))
    decreases end - curr
  {
    if curr <= end {
      WalkMembers(s, step, curr + step, end, x);
      ModShift(x - curr - step, step);
      if curr < x && (x - curr) % step == 0 {
        DivModUnique(x - curr, step, (x - curr) / step, 0);
        if x - curr < step {
          DivModUnique(x - curr, step, 0, x - curr);
        }
      }
    }
  }

  /** The walk appends in strictly increasing order. */
  lemma {:induction false} WalkIncreasing(s: Settings, step: int, curr: int, end: int)
    requires step > 0
    ensures StrictlyIncreasing(Walk(s, step, curr, end))
    decreases end - curr
  {
    if curr <= end {
      WalkIncreasing(s, step, curr + step, end);
      var rest := Walk(s, step, curr + step, end);
      forall k | 0 <= k < |rest| ensures rest[k] > curr {
        WalkMembers(s, step, curr + step, end, rest[k]);
      }
    }
  }

  /** On an aligned walk the loop stops one step after `end`. */
  lemma {:induction false} PastSteps(step: int, curr: int, k: nat)
    requires step > 0
    ensures Past(step, curr, curr + k * step) == curr + k * step + step
    decreases k
  {
    var end := curr + k * step;
    if k > 0 {
      MulMono(0, k, step);
      assert end == (curr + step) + (k - 1) * step;
      PastSteps(step, curr + step, k - 1);
    } else {
      assert end == curr;
    }
  }

  lemma PastEnd(step: int, curr: int, end: int)
    requires step > 0 && curr <= end && (end - curr) % step == 0
    ensures Past(step, curr, end) == end + step
  {
    var k := (end - curr) / step;
    DivModUnique(end - curr, step, k, 0);
    PastSteps(step, curr, k);
  }

  lemma {:induction false} TicksAt(end: int, step: int, n: nat)
    ensures |Ticks(end, step, n)| == n
    ensures forall i :: 0 <= i < n ==> Ticks(end, step, n)[i] == end + (i + 1) * step
  {
    if n > 0 {
      TicksAt(end, step, n - 1);
    }
  }

  /** One more round of the for loop appends the next step. */
  lemma TicksNext(end: int, step: int, n: nat)
    ensures Ticks(end, step, n + 1) == Ticks(end, step, n) + [end + n * step + step]
  {
    assert (n + 1) * step == n * step + step;
  }

  /** The correction's values increase. */
  lemma TicksIncreasing(end: int, step: int, n: nat)
    requires step > 0
    ensures StrictlyIncreasing(Ticks(end, step, n))
  {
    var t := Ticks(end, step, n);
    TicksAt(end, step, n);
    forall i, j | 0 <= i < j < |t| ensures t[i] < t[j] {
      MulMono(i + 1, j + 1, step);
    }
  }

  /** Each of the `n` values, with (n + 1) * step == 60, is a grid minute of (end, end + 60). */
  lemma TicksWithinHour(end: int, step: int, n: nat, x: int)
    requires step > 0 && (n + 1) * step == 60 && end % step == 0
    requires x in Ticks(end, step, n)
    ensures end < x < end + 60 && x % step == 0
  {
    var t := Ticks(end, step, n);
    TicksAt(end, step, n);
    var i :| 0 <= i < n && t[i] == x;
    if i + 1 < n { MulMono(i + 1, n, step); }
    MultipleAligned(i + 1, step);
    ModAddAligned(end, (i + 1) * step, step);
  }

  /** Every grid minute of (end, end + 60) is one of the `n` values, when (n + 1) * step == 60. */
  lemma TicksCoverHour(end: int, step: int, n: nat, x: int)
    requires step > 0 && (n + 1) * step == 60 && end % step == 0
    requires end < x < end + 60 && x % step == 0
    ensures x in Ticks(end, step, n)
  {
    var t := Ticks(end, step, n);
    TicksAt(end, step, n);
    ModAddAligned(x - end, end, step);
    var q := (x - end) / step;
    StepIndex(x - end, step, n + 1);
    assert t[q - 1] == end + q * step == x;
  }

  /** A positive multiple of `step` below `m` steps is a whole number of steps, between 1 and m - 1. */
  lemma StepIndex(d: int, step: int, m: int)
    requires step > 0 && d % step == 0 && 0 < d < m * step
    ensures d == (d / step) * step && 0 < d / step < m
  {
    var q := d / step;
    assert d == q * step;
    if q < 0 { MulMono(q, 0, step); }
    if q > m { MulMono(m, q, step); }
  }

  /** The correction runs after a whole-hour walk exactly when `Completed` says it does. */
  lemma CorrectionCondition(s: Settings, st: int, end: int)
    requires s.timestep in ValidTimesteps
    requires st <= end && st % 60 == 0 && end % 60 == 0
    ensures CorrectionFires(s, Past(Step(s), st, end)) <==>
              s.timestep != 1 && HourOf(end) == 23 && IsPossibleHour(s, 0.0)
    ensures (end - st) % Step(s) == 0
  {
    var step := Step(s);
    HourAligned(st, s.timestep);
    HourAligned(end, s.timestep);
    ModAddAligned(end - st, st, step);
    PastEnd(step, st, end);
    if s.timestep != 1 {
      WithinHour(end, end + step);
    }
  }

  /** The values of one call lie in [st, end + 60) and increase strictly. */
  lemma CalcIncreasing(s: Settings, st: int, end: int)
    requires s.timestep in ValidTimesteps
    requires st <= end && st % 60 == 0 && end % 60 == 0
    ensures StrictlyIncreasing(CalcTimestamps(s, st, end))
    ensures forall y :: y in CalcTimestamps(s, st, end) ==> st <= y < end + 60
  {
    var step := Step(s);
    HourAligned(end, s.timestep);
    var walk := Walk(s, step, st, end);
    var ticks := if CorrectionFires(s, Past(step, st, end)) then Ticks(end, step, s.timestep - 1) else [];
    assert CalcTimestamps(s, st, end) == walk + ticks;
    WalkIncreasing(s, step, st, end);
    TicksIncreasing(end, step, s.timestep - 1);
    forall y | y in walk ensures st <= y <= end {
      WalkMembers(s, step, st, end, y);
    }
    forall y | y in ticks ensures end < y < end + 60 {
      TicksWithinHour(end, step, s.timestep - 1, y);
    }
    var all := walk + ticks;
    forall i, j | 0 <= i < j < |all| ensures all[i] < all[j] {
      if j < |walk| {
      } else if i >= |walk| {
        assert all[i] == ticks[i - |walk|] && all[j] == ticks[j - |walk|];
      } else {
        assert all[i] in walk && all[j] in ticks;
      }
    }
  }

  /**
   * One call of `_calcTimestamps` between two whole hours appends exactly the minutes of the span:
   * the sampled possible hours and the correction's minutes.
   */
  lemma CalcMembers(s: Settings, st: int, end: int, x: int)
    requires s.timestep in ValidTimesteps
    requires st <= end && st % 60 == 0 && end % 60 == 0
    ensures x in CalcTimestamps(s, st, end) <==> InSpan(s, st, end, x)
  {
    var step := Step(s);
    CorrectionCondition(s, st, end);
    HourAligned(st, s.timestep);
    HourAligned(end, s.timestep);
    WalkMembers(s, step, st, end, x);
    ModAddAligned(x - st, st, step);
    if CorrectionFires(s, Past(step, st, end)) {
      if x in Ticks(end, step, s.timestep - 1) {
        TicksWithinHour(end, step, s.timestep - 1, x);
      }
      if end < x < end + 60 && x % step == 0 {
        TicksCoverHour(end, step, s.timestep - 1, x);
      }
    }
  }

  // ---------------------------------------------------------------- lemmas about the whole list

  /** Both boundaries are whole hours of the year, and `reversed` compares their minutes of year. */
  lemma Boundaries(s: Settings)
    requires ValidSettings(s)
    ensures Moy(s.stTime) % 60 == 0 && Moy(s.stTime) <= LastHourMoy
    ensures Moy(s.endTime) % 60 == 0 && Moy(s.endTime) <= LastHourMoy
    ensures s.reversed <==> Moy(s.stTime) > Moy(s.endTime)
  {
    var a, b := Moy(s.stTime), Moy(s.endTime);
    DivModUnique(a, 60, a / MinutesPerDay * 24 + s.stTime.hour, 0);
    DivModUnique(b, 60, b / MinutesPerDay * 24 + s.endTime.hour, 0);
  }

  /** The one or two calls of `_calculateTimestamps` between whole hours `st` and `end`. */
  function Calls(s: Settings, st: int, end: int): seq<int>
    requires s.timestep in ValidTimesteps
  {
    if st <= end then CalcTimestamps(s, st, end)
    else CalcTimestamps(s, st, LastHourMoy) + CalcTimestamps(s, 0, end)
  }

  /** The spans those calls cover. */
  predicate InCalls(s: Settings, st: int, end: int, x: int)
    requires s.timestep in ValidTimesteps
  {
    if st <= end then InSpan(s, st, end, x)
    else InSpan(s, st, LastHourMoy, x) || InSpan(s, 0, end, x)
  }

  lemma CallsMembers(s: Settings, st: int, end: int, x: int)
    requires s.timestep in ValidTimesteps
    requires st % 60 == 0 && end % 60 == 0 && 0 <= st <= LastHourMoy && 0 <= end <= LastHourMoy
    ensures x in Calls(s, st, end) <==> InCalls(s, st, end, x)
  {
    if st <= end {
      CalcMembers(s, st, end, x);
    } else {
      CalcMembers(s, st, LastHourMoy, x);
      CalcMembers(s, 0, end, x);
    }
  }

  /** `_timestampsData` holds exactly the minutes of year that `InPeriod` describes. */
  lemma TimestampsMembers(s: Settings, x: int)
    requires ValidSettings(s)
    ensures x in Timestamps(s) <==> InPeriod(s, x)
  {
    Boundaries(s);
    CallsMembers(s, Moy(s.stTime), Moy(s.endTime), x);
  }

  /** Order and bounds of the calls between two whole hours of the year. */
  lemma CallsOrder(s: Settings, st: int, end: int)
    requires s.timestep in ValidTimesteps
    requires st % 60 == 0 && end % 60 == 0 && 0 <= st <= LastHourMoy && 0 <= end <= LastHourMoy
    ensures forall y :: y in Calls(s, st, end) ==> 0 <= y < MinutesPerYear && y % Step(s) == 0
    ensures st <= end ==> StrictlyIncreasing(Calls(s, st, end))
    ensures st > end ==>
              var tail, head := CalcTimestamps(s, st, LastHourMoy), CalcTimestamps(s, 0, end);
              && StrictlyIncreasing(tail) && StrictlyIncreasing(head)
              && forall i, j :: 0 <= i < |tail| && 0 <= j < |head| ==> head[j] < tail[i]
    ensures Distinct(Calls(s, st, end))
  {
    forall y | y in Calls(s, st, end) ensures 0 <= y < MinutesPerYear && y % Step(s) == 0 {
      CallsBounds(s, st, end, y);
    }
    if st <= end {
      CalcIncreasing(s, st, end);
      IncreasingDistinct(Calls(s, st, end));
    } else {
      var tail, head := CalcTimestamps(s, st, LastHourMoy), CalcTimestamps(s, 0, end);
      SeamBelow(s, st, end);
      JoinDistinct(tail, head);
    }
  }

  lemma CallsBounds(s: Settings, st: int, end: int, y: int)
    requires s.timestep in ValidTimesteps
    requires st % 60 == 0 && end % 60 == 0 && 0 <= st <= LastHourMoy && 0 <= end <= LastHourMoy
    requires y in Calls(s, st, end)
    ensures 0 <= y < MinutesPerYear && y % Step(s) == 0
  {
    CallsMembers(s, st, end, y);
  }

  /** Every value of the walk from 1 January comes before every value of the walk to 31 December. */
  lemma SeamBelow(s: Settings, st: int, end: int)
    requires s.timestep in ValidTimesteps
    requires st % 60 == 0 && end % 60 == 0 && 0 <= end < st <= LastHourMoy
    ensures var tail, head := CalcTimestamps(s, st, LastHourMoy), CalcTimestamps(s, 0, end);
            && StrictlyIncreasing(tail) && StrictlyIncreasing(head)
            && forall i, j :: 0 <= i < |tail| && 0 <= j < |head| ==> head[j] < tail[i]
  {
    var tail, head := CalcTimestamps(s, st, LastHourMoy), CalcTimestamps(s, 0, end);
    CalcIncreasing(s, st, LastHourMoy);
    CalcIncreasing(s, 0, end);
    HoursApart(end, st);
    forall i, j | 0 <= i < |tail| && 0 <= j < |head| ensures head[j] < tail[i] {
      assert tail[i] in tail && head[j] in head;
      assert head[j] < end + 60 <= st <= tail[i];
    }
  }

  /** Two different whole hours are at least an hour apart. */
  lemma HoursApart(a: int, b: int)
    requires a % 60 == 0 && b % 60 == 0 && a < b
    ensures a + 60 <= b
  {
    DivModUnique(a, 60, a / 60, 0);
    DivModUnique(b, 60, b / 60, 0);
  }

  lemma IncreasingDistinct(q: seq<int>)
    requires StrictlyIncreasing(q)
    ensures Distinct(q)
  {
    forall i, j | 0 <= i < j < |q| ensures q[i] != q[j] {
      assert q[i] < q[j];
    }
  }

  /** Two increasing runs, the second wholly below the first, never repeat a value. */
  lemma JoinDistinct(a: seq<int>, b: seq<int>)
    requires StrictlyIncreasing(a) && StrictlyIncreasing(b)
    requires forall i, j :: 0 <= i < |a| && 0 <= j < |b| ==> b[j] < a[i]
    ensures Distinct(a + b)
  {
    var t := a + b;
    forall i, j | 0 <= i < j < |t| ensures t[i] != t[j] {
      if j < |a| {
        assert t[i] == a[i] && t[j] == a[j];
      } else if i >= |a| {
        assert t[i] == b[i - |a|] && t[j] == b[j - |a|];
      } else {
        assert t[i] == a[i] && t[j] == b[j - |a|];
      }
    }
  }


  /**
   * Every value is a minute of the year on the step grid, and no minute appears twice. A period
   * that is not reversed is strictly increasing.
   */
  lemma TimestampsOrder(s: Settings)
    requires ValidSettings(s)
    ensures forall x :: x in Timestamps(s) ==> 0 <= x < MinutesPerYear && x % Step(s) == 0
    ensures !s.reversed ==> StrictlyIncreasing(Timestamps(s))
    ensures Distinct(Timestamps(s))
  {
    Boundaries(s);
    CallsOrder(s, Moy(s.stTime), Moy(s.endTime));
  }

  /**
   * A reversed period is the walk to 31 December 23:00 followed by the walk from 1 January 00:00,
   * each strictly increasing, every value of the second below every value of the first.
   */
  lemma ReversedSeam(s: Settings)
    requires ValidSettings(s) && s.reversed
    ensures var tail, head := CalcTimestamps(s, Moy(s.stTime), LastHourMoy),
                              CalcTimestamps(s, 0, Moy(s.endTime));
            && Timestamps(s) == tail + head
            && StrictlyIncreasing(tail) && StrictlyIncreasing(head)
            && forall i, j :: 0 <= i < |tail| && 0 <= j < |head| ==> head[j] < tail[i]
  {
    Boundaries(s);
    CallsOrder(s, Moy(s.stTime), Moy(s.endTime));
  }

  /**
   * The one case where the end-of-walk correction appends minutes outside the daily window: a
   * reversed period whose window is neither overnight nor ends at hour 23, but contains hour 0,
   * sampled more than once an hour. Its first walk ends on 31 December 23:00, whose hour is 23.
   */
  predicate CorrectionOutsideWindow(s: Settings) {
    && s.reversed && !s.overnight && s.stTime.hour == 0 && s.endTime.hour != 23
    && s.timestep != 1
  }

  /**
   * Every stored minute lies in the daily window, except for the correction's minutes in the case
   * CorrectionOutsideWindow.
   */
  lemma TimestampsInWindow(s: Settings, x: int)
    requires ValidSettings(s) && x in Timestamps(s) && !CorrectionOutsideWindow(s)
    ensures IsPossibleHour(s, FracHour(x))
  {
    Boundaries(s);
    TimestampsMembers(s, x);
    FracHourOfMoy(s.endTime);
    var st, end := Moy(s.stTime), Moy(s.endTime);
    if !Sampled(s, st, end, x) && !Sampled(s, st, LastHourMoy, x) && !Sampled(s, 0, end, x) {
      var last := if Completed(s, end, x) then end else LastHourMoy;
      assert Completed(s, last, x);
      WithinHour(last, x);
      FracHourRange(x);
      PossibleHourLastHour(s, FracHour(x));
    }
  }

  /**
   * In that case the first minute past 31 December 23:00 on the step grid is stored although the
   * window rejects it; for example Dec 1 00:00 to Jan 31 17:00 every 15 minutes stores 23:15 of
   * 31 December.
   */
  lemma ReversedCorrectionLeavesWindow(s: Settings)
    requires ValidSettings(s) && CorrectionOutsideWindow(s)
    ensures LastHourMoy + Step(s) in Timestamps(s)
    ensures !IsPossibleHour(s, FracHour(LastHourMoy + Step(s)))
  {
    var step := Step(s);
    var x := LastHourMoy + step;
    HourAligned(LastHourMoy, s.timestep);
    ModShift(LastHourMoy, step);
    assert HourOf(LastHourMoy) == 23;
    assert Completed(s, LastHourMoy, x);
    TimestampsMembers(s, x);
    WithinHour(LastHourMoy, x);
    FracHourRange(x);
    PossibleHourLastHour(s, FracHour(x));
  }

  /** A window from hour 0 to hour 23 admits every minute of the day. */
  lemma WholeDayPossible(s: Settings, p: int)
    requires !s.overnight && s.stTime.hour == 0 && s.endTime.hour == 23
    ensures IsPossibleHour(s, FracHour(p))
  {
    FracHourRange(p);
    assert IsPossibleHour(s, 0.0);
    if FracHour(p) > 23.0 {
      assert FracHour(p).Floor == 23;
    }
  }

  /** With a whole-day window a walk over k steps keeps every pointer: k + 1 values. */
  lemma {:induction false} WalkLengthWholeDay(s: Settings, step: int, curr: int, k: nat)
    requires !s.overnight && s.stTime.hour == 0 && s.endTime.hour == 23 && step > 0
    ensures |Walk(s, step, curr, curr + k * step)| == k + 1
    decreases k
  {
    var end := curr + k * step;
    WholeDayPossible(s, curr);
    if k > 0 {
      MulMono(0, k, step);
      assert Walk(s, step, curr, end) == [curr] + Walk(s, step, curr + step, end);
      assert end == (curr + step) + (k - 1) * step;
      WalkLengthWholeDay(s, step, curr + step, k - 1);
    } else {
      assert end == curr;
      assert Walk(s, step, curr, end) == [curr] + Walk(s, step, curr + step, end);
    }
  }

  lemma MulAssoc(a: int, b: int, c: int)
    ensures (a * b) * c == a * (b * c)
  {
  }

  /** Sampling more than once an hour makes the step shorter than an hour. */
  lemma StepBelowHour(s: Settings)
    requires s.timestep in ValidTimesteps && s.timestep != 1
    ensures Step(s) < 60
  {
    StepIsTableValue(s.timestep);
    MulMono(1, s.timestep, Step(s));
  }

  /** A whole-day walk over the year keeps 8759 * timestep + 1 pointers and stops one step on. */
  lemma WholeYearWalk(s: Settings)
    requires s.timestep in ValidTimesteps && !s.overnight
    requires s.stTime.hour == 0 && s.endTime.hour == 23
    ensures |Walk(s, Step(s), 0, LastHourMoy)| == 8759 * s.timestep + 1
    ensures Past(Step(s), 0, LastHourMoy) == LastHourMoy + Step(s)
  {
    var step, n := Step(s), s.timestep;
    StepIsTableValue(n);
    var k := 8759 * n;
    assert k * step == LastHourMoy by {
      MulAssoc(8759, n, step);
    }
    assert |Walk(s, step, 0, LastHourMoy)| == k + 1 by {
      WalkLengthWholeDay(s, step, 0, k);
    }
    assert Past(step, 0, LastHourMoy) == LastHourMoy + step by {
      PastSteps(step, 0, k);
    }
  }

  /** With a whole-day window the correction after 31 December 23:00 fires for every timestep but 1. */
  lemma WholeYearCorrection(s: Settings)
    requires s.timestep in ValidTimesteps && !s.overnight
    requires s.stTime.hour == 0 && s.endTime.hour == 23
    ensures CorrectionFires(s, LastHourMoy + Step(s)) <==> s.timestep != 1
  {
    var step := Step(s);
    assert IsPossibleHour(s, 0.0);
    assert HourOf(LastHourMoy) == 23;
    if s.timestep != 1 {
      StepBelowHour(s);
      WithinHour(LastHourMoy, LastHourMoy + step);
    } else {
      assert HourOf(LastHourMoy + step) == 0;
    }
  }

  /** A non-reversed whole-day period from 1/1 00:00 to 12/31 23:00 has 8760 * timestep values. */
  lemma WholeYearLength(s: Settings)
    requires s.timestep in ValidTimesteps && !s.overnight && !s.reversed
    requires s.stTime.hour == 0 && s.endTime.hour == 23
    requires IsValid(s.stTime) && IsValid(s.endTime)
    requires Moy(s.stTime) == 0 && Moy(s.endTime) == LastHourMoy
    ensures |Timestamps(s)| == HoursPerYear * s.timestep
  {
    var step, n := Step(s), s.timestep;
    StepIsTableValue(n);
    WholeYearWalk(s);
    WholeYearCorrection(s);
    assert Timestamps(s) == CalcTimestamps(s, 0, LastHourMoy);
    TicksAt(LastHourMoy, step, n - 1);
  }

  /**
   * The default period, 1/1 00:00 to 12/31 23:00, holds 8760 samples per sample of an hour: the
   * walk gives 8759 * timestep + 1 and the correction the remaining timestep - 1.
   */
  lemma DefaultPeriodLength(timestep: int)
    requires timestep in ValidTimesteps
    ensures ValidSettings(DefaultSettings(timestep))
    ensures |Timestamps(DefaultSettings(timestep))| == HoursPerYear * timestep
  {
    var s := DefaultSettings(timestep);
    YearEnds();
    WholeYearLength(s);
  }


  // ---------------------------------------------------------------- the read views (lines 214-225)

  /** Integer division is pinned down by the interval its dividend lies in. */
  lemma DivRange(a: int, d: int, q: int)
    requires d > 0
    ensures a / d == q <==> q * d <= a < (q + 1) * d
  {
    if q * d <= a < (q + 1) * d {
      DivModUnique(a, d, q, a - q * d);
    } else {
      DivModUnique(a, d, a / d, a % d);
    }
  }

  /** `int(moy / 60)` of each minute, in stored order: the hour of year the minute falls in. */
  function HoursOf(moys: seq<int>): (r: seq<int>)
    ensures |r| == |moys|
    ensures forall i :: 0 <= i < |moys| ==> r[i] * 60 <= moys[i] < r[i] * 60 + 60
  {
    if moys == [] then [] else [moys[0] / 60] + HoursOf(moys[1..])
  }

  /** The hours of a period's minutes are hours of the year. */
  lemma HoursOfTimestamps(s: Settings)
    requires ValidSettings(s)
    ensures forall i :: 0 <= i < |Timestamps(s)| ==> 0 <= HoursOf(Timestamps(s))[i] < HoursPerYear
  {
    var t := Timestamps(s);
    TimestampsOrder(s);
    forall i | 0 <= i < |t| ensures 0 <= HoursOf(t)[i] < HoursPerYear {
      assert t[i] in t;
    }
  }

  /** `len(self._timestampsData) / self.timestep == 8760`, a Python 2 integer division. */
  function Annual(count: int, timestep: int): (r: bool)
    requires timestep > 0
    ensures r <==> HoursPerYear * timestep <= count < (HoursPerYear + 1) * timestep
  {
    DivRange(count, timestep, HoursPerYear);
    count / timestep == HoursPerYear
  }

  /** The default period is annual whatever its timestep. */
  lemma DefaultIsAnnual(timestep: int)
    requires timestep in ValidTimesteps
    ensures ValidSettings(DefaultSettings(timestep))
    ensures Annual(|Timestamps(DefaultSettings(timestep))|, timestep)
  {
    DefaultPeriodLength(timestep);
  }

  /** The minutes of the first `n` steps of the grid: 0, step, ..., (n - 1) * step. */
  function Grid(step: int, n: nat): (g: set<int>)
    requires step > 0
    ensures |g| == n
    ensures forall x :: x in g <==> 0 <= x < n * step && x % step == 0
  {
    if n == 0 then {}
    else
      var last := (n - 1) * step;
      MultipleAligned(n - 1, step);
      GridStep(step, n - 1);
      Grid(step, n - 1) + {last}
  }

  /** The one grid minute in [k * step, (k + 1) * step) is k * step. */
  lemma GridStep(step: int, k: nat)
    requires step > 0
    ensures forall x :: k * step <= x < (k + 1) * step && x % step == 0 ==> x == k * step
  {
    forall x | k * step <= x < (k + 1) * step && x % step == 0 ensures x == k * step {
      DivModUnique(x, step, k, x - k * step);
    }
  }

  /** A list without repeats has as many distinct values as entries. */
  lemma {:induction false} DistinctCard(q: seq<int>)
    requires Distinct(q)
    ensures |set x | x in q| == |q|
  {
    if q != [] {
      var init, last := q[..|q| - 1], q[|q| - 1];
      assert Distinct(init);
      DistinctCard(init);
      assert last !in init;
      assert (set x | x in q) == (set x | x in init) + {last};
    }
  }

  /** A subset is no larger, and as large only when it is the whole set. */
  lemma SubsetCard(a: set<int>, b: set<int>)
    requires a <= b
    ensures |a| <= |b|
    ensures |a| == |b| ==> a == b
  {
    var rest := b - a;
    assert b == a + rest && a * rest == {};
    assert |b| == |a| + |rest|;
    if |a| == |b| {
      assert rest == {};
      assert b == a + {};
    }
  }

  /** The stored minutes form a subset of the year's grid, one entry per minute. */
  lemma TimestampsOnGrid(s: Settings)
    requires ValidSettings(s)
    ensures HoursPerYear * s.timestep * Step(s) == MinutesPerYear
    ensures (set x | x in Timestamps(s)) <= Grid(Step(s), HoursPerYear * s.timestep)
    ensures |set x | x in Timestamps(s)| == |Timestamps(s)|
  {
    MulAssoc(HoursPerYear, s.timestep, Step(s));
    TimestampsOrder(s);
    DistinctCard(Timestamps(s));
  }

  /** A period that `isAnnual` accepts stores every grid minute of the year. */
  lemma AnnualCoversGrid(s: Settings, x: int)
    requires ValidSettings(s) && Annual(|Timestamps(s)|, s.timestep)
    requires 0 <= x < MinutesPerYear && x % Step(s) == 0
    ensures InPeriod(s, x)
  {
    StepIsTableValue(s.timestep);
    var n: nat := HoursPerYear * s.timestep;
    var stored := set y | y in Timestamps(s);
    TimestampsOnGrid(s);
    SubsetCard(stored, Grid(Step(s), n));
    assert x in stored;
    TimestampsMembers(s, x);
  }

  /** A period that stores every grid minute of the year is accepted by `isAnnual`. */
  lemma GridCoveredAnnual(s: Settings)
    requires ValidSettings(s)
    requires forall x :: 0 <= x < MinutesPerYear && x % Step(s) == 0 ==> InPeriod(s, x)
    ensures Annual(|Timestamps(s)|, s.timestep)
  {
    StepIsTableValue(s.timestep);
    var n: nat := HoursPerYear * s.timestep;
    var stored := set y | y in Timestamps(s);
    var grid := Grid(Step(s), n);
    TimestampsOnGrid(s);
    forall x | x in grid ensures x in stored {
      TimestampsMembers(s, x);
    }
    SubsetCard(stored, grid);
    SubsetCard(grid, stored);
  }

  /**
   * `isAnnual` holds exactly when the period stores every grid minute of the year, whatever its
   * boundaries and window; the default period is one case, not the only one.
   */
  lemma AnnualMeansWholeGrid(s: Settings)
    requires ValidSettings(s)
    ensures Annual(|Timestamps(s)|, s.timestep) <==>
              forall x :: 0 <= x < MinutesPerYear && x % Step(s) == 0 ==> InPeriod(s, x)
  {
    if Annual(|Timestamps(s)|, s.timestep) {
      forall x | 0 <= x < MinutesPerYear && x % Step(s) == 0 ensures InPeriod(s, x) {
        AnnualCoversGrid(s, x);
      }
    }
    if forall x :: 0 <= x < MinutesPerYear && x % Step(s) == 0 ==> InPeriod(s, x) {
      GridCoveredAnnual(s);
    }
  }
}
