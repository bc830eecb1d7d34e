# AnalysisPeriod in Dafny

This project models ladybug's `AnalysisPeriod` (ladybug/analysisperiod.py). An analysis period has:

- a start and an end month, day and hour;
- a number of samples per hour (the timestep);
- the list `_timestampsData` of the minutes of the year it covers. The constructor computes this list in place.

The model covers the following parts of the source:

- **Construction.** Falsy arguments become defaults. The end day is clamped to the length of its month (non-leap table). The two boundary `DateTime`s are built. The `overnight` and `reversed` flags are set. An invalid timestep makes the constructor raise.
- **`isPossibleHour`.** The daily hour window.
- **`_calcTimestamps`.** A walk over the year in steps of `60 / timestep` minutes. It keeps the minutes whose fractional hour is in the window. When the walk stops in hour 23 and hour 0 is in the window, an end-of-day correction appends `timestep - 1` more minutes without checking the window.
- **`_calculateTimestamps`.** One walk, or two walks for a period that wraps past 31 December.
- **Read views.** `intHoys`, `isAnnual` and `isTimeIncluded`.
- **Text form.** `__repr__`, and its parser `fromAnalysisPeriodString` (`lower`, `replace`, `split`, then the constructor).
- **`fromAnalysisPeriod`.** A dispatch over a closed set of inputs.

Modules:

- `Results`: `Option` and `Result`.
- `DateTimes`: the calendar the period relies on. ladybug/dt.py is not part of this model. The module states what is assumed of it:
  - a non-leap year of 525600 minutes;
  - construction fails on an out-of-range field;
  - `moy = (days before the month + day - 1) * 1440 + hour * 60 + minute`;
  - `hoy = moy / 60.0`;
  - `fromMoy` and `fromHoy` are the inverse conversions.
- `PyStrings`: the Python 2 builtins the parser uses:
  - `lower`;
  - `replace`;
  - `split` with a separator;
  - `int()` of a string;
  - `str()` of an integer.
- `PeriodSettings`: the arguments of `__init__` are a `Field`. A field is either missing, an integer or a string, because Python falsiness and `int()` treat the two differently. `Normalize` returns the settings or the exception `__init__` would raise, along with the `isPossibleHour` window.
- `PeriodTimestamps`: `CalcTimestamps` and `Timestamps` are the specification functions of the two walks. The lemmas state which minutes the list holds (`InPeriod`), their order, bounds and grid, and the length for the whole year.
- `PeriodText`: `Repr`, `ParseAnalysisPeriod` and the round trip between them.
- `AnalysisPeriods`: the class `AnalysisPeriod`.
  - Its fields: `stTime`, `endTime`, `overnight`, `reversed`, `timestep`, `minuteIntervals` and `timestampsData`.
  - A constructor from valid settings that runs `CalculateTimestamps`. It appends to `timestampsData` in place through `CalcTimestamps`, `WalkWindow` (the while loop) and `AppendTicks` (the for loop).
  - The read views.
  - The named constructors `New`, `FromAnalysisPeriodString` and `FromAnalysisPeriod`.

  `__init__` raises on bad arguments, but a Dafny constructor cannot fail. So `New` checks the arguments with `Normalize` and returns an `Err` where Python raises.

Python's `datetime` and `timedelta` walk (lines 173-182, 187-191) is modelled with integer minutes of the year. The walk stays inside the year, so `DateTime(curr...).moy` is the pointer itself.

## Model

| member | source | states |
|---|---|---|
| PeriodSettings.Truthy | ladybug/analysisperiod.py:38-44 | Definition of Python truthiness for an argument: None, 0 and the empty string are false. Used by `OrDefault`. |
| PeriodSettings.OrDefault | ladybug/analysisperiod.py:38-44 | Definition of `x or d`. Its meaning is proved by `TruthyKeeps` and `FalsyArgumentsGiveDefaults`. |
| PeriodSettings.ToInt | ladybug/analysisperiod.py:48 | Definition of `int()` of an argument: an integer is kept, a string goes through `ParseInt`, and a failure is the ValueError `NotAnInteger`. |
| PeriodSettings.PyIndex | ladybug/analysisperiod.py:54-56 | Definition of tuple indexing with a negative index counting from the end. `EndTime` uses it for the month-length lookup. |
| PeriodSettings.StartTime | ladybug/analysisperiod.py:48 | A start time that is built is a valid calendar value on a whole hour; each of its fields is `int()` of the corresponding argument. An argument that is not an integer gives `NotAnInteger` (ValueError). Integers that do not form a valid calendar value give `InvalidDateTime`. |
| PeriodSettings.EndTime | ladybug/analysisperiod.py:54-61 | An end time that is built is valid and on a whole hour. Its month and hour are `int()` of the arguments. Its day is `int(endDay)` lowered to the length of the end month. A non-integer day or month gives `NotAnInteger`. A month outside -11..12 gives `MonthOutOfTable`, the IndexError of the tuple lookup at line 54. Every failure is one of the four errors of these lines. |
| PeriodSettings.Normalize | ladybug/analysisperiod.py:38-84 | A successful construction gives valid boundaries, `overnight` = start hour > end hour, `reversed` = start hoy > end hoy, and the defaulted timestep. A timestep that is not a key of the table always fails. The first failure is the one raised: a start-time error, else an end-time error, else `InvalidTimestep` (the ValueError at lines 82-84). |
| PeriodSettings.NormalizeFields | ladybug/analysisperiod.py:38-61 | Every field of a constructed period is `int()` of its `or`-defaulted argument. The end day is that value clamped to the month length. |
| PeriodSettings.NormalizeOfFields | ladybug/analysisperiod.py:38-79 | Truthy arguments that convert to the fields of a valid period rebuild exactly that period: no clamping, and the same flags. |
| PeriodSettings.NormalizeOfTimes | ladybug/analysisperiod.py:68-84 | Once both boundaries are built and the timestep is in the table, the period is those boundaries with the flags computed from them. |
| PeriodSettings.TruthyKeeps | ladybug/analysisperiod.py:38-44 | Proof helper: unfolds `x or d` to `x` for a truthy `x`. |
| PeriodSettings.StartTimeOfFields | ladybug/analysisperiod.py:48 | Arguments converting to a valid start time's fields build that start time. |
| PeriodSettings.EndTimeOfFields | ladybug/analysisperiod.py:54-61 | Arguments converting to a valid end time's fields build that end time; a day within the month is not clamped. |
| PeriodSettings.FalsyArgumentsGiveDefaults | ladybug/analysisperiod.py:38-44 | Omitted, zero or empty-string arguments give 1/1 00:00 to 12/31 23:00 at timestep 1. |
| PeriodSettings.EndHourZero | ladybug/analysisperiod.py:43 | A numeric end hour 0 is falsy and becomes 23. The string "0" is truthy and stays hour 0. |
| PeriodSettings.ClampKeepsValidEndDay | ladybug/analysisperiod.py:54-58 | A numeric end day within its month is kept. One beyond the month becomes the month's length. |
| PeriodSettings.NumericEndDayClamped | ladybug/analysisperiod.py:54-61 | A positive numeric end day past its month is lowered to the month's length and never rejected. With a valid start, end month, end hour and timestep, construction succeeds and the end day is the smaller of the given day and the month length. |
| PeriodSettings.ClampTextEndMonthRaises | ladybug/analysisperiod.py:56 | A string end month whose end day needs clamping makes construction fail with the TypeError of `endMonth - 1`. |
| PeriodSettings.StepMinutes | ladybug/analysisperiod.py:88 | Definition of `timedelta(1 / (24.0 * timestep))` in minutes. Its meaning is proved by `StepIsTableValue`. |
| PeriodSettings.StepIsTableValue | ladybug/analysisperiod.py:88 | `timedelta(1 / (24.0 * timestep))` is exactly the table's minutes for that timestep; that many minutes times the timestep is one hour. |
| PeriodSettings.TimestepsAreDivisorsOfSixty | ladybug/analysisperiod.py:28-29 | The accepted timesteps are exactly the divisors of 60 (both directions). |
| PeriodSettings.FlagsMeaning | ladybug/analysisperiod.py:68-79 | `overnight` holds exactly when the end hour is below the start hour. `reversed` holds exactly when the end comes chronologically before the start. |
| PeriodSettings.IsPossibleHour | ladybug/analysisperiod.py:154-162 | Definition of `isPossibleHour`, including the one-level recursive call for an hour past 23. Its meaning is proved by `PossibleHourWithinDay` and `PossibleHourLastHour`. |
| PeriodSettings.PossibleHourWithinDay | ladybug/analysisperiod.py:158-162 | For 0 ≤ h ≤ 23 the window is [start, end], or [start, 23] ∪ [0, end] overnight. A fraction past the end hour is outside. |
| PeriodSettings.PossibleHourLastHour | ladybug/analysisperiod.py:156-157 | For 23 < h < 24 (floored to 23 only when hour 0 is possible), h is possible exactly for an overnight window or the 0-to-23 window. |
| DateTimes.DaysBeforeOrder | ladybug/analysisperiod.py:30 | Every month of the table starts after the whole of each earlier month. |
| DateTimes.YearLength | ladybug/analysisperiod.py:30 | The month table sums to 365 days. |
| DateTimes.DayOfYear | ladybug/analysisperiod.py:181 | The day index of a valid calendar value is in [0, 365). |
| DateTimes.Moy | ladybug/analysisperiod.py:181 | Minute of year is in [0, 525600); its day part is the day of year and its remainder is hour * 60 + minute. |
| DateTimes.MoyOrder | ladybug/analysisperiod.py:76 | Comparing minutes of year is comparing calendar values chronologically (both directions). |
| DateTimes.YearEnds | ladybug/analysisperiod.py:198-199 | 1 January 00:00 is minute 0 and 31 December 23:00 is minute 525540. |
| DateTimes.MonthOfDay | ladybug/analysisperiod.py:30 | The month found for a day of the year contains that day. |
| DateTimes.FromMoy | ladybug/analysisperiod.py:207 | `fromMoy(moy)` is a valid calendar value whose minute of year is `moy`. |
| DateTimes.FromHoy | ladybug/analysisperiod.py:198-199 | `fromHoy(h)` is a valid calendar value at minute `60 * h`. |
| DateTimes.FromMoyMoy | ladybug/analysisperiod.py:207 | Converting a calendar value to its minute of year and back gives it unchanged. |
| PeriodTimestamps.Step | ladybug/analysisperiod.py:88 | `minuteIntervals` is between 1 and 60 minutes, and timestep of them make an hour. |
| PeriodTimestamps.FracHourRange | ladybug/analysisperiod.py:179 | The pointer's `hour + minute / 60.0` is in [0, 24). It exceeds 23 exactly in hour 23 past minute 0. |
| PeriodTimestamps.FracHourOfMoy | ladybug/analysisperiod.py:179-181 | The pointer's hour and minute are those of the calendar value it stands for. |
| PeriodTimestamps.WithinHour | ladybug/analysisperiod.py:189-190 | A minute within the hour that starts at a whole hour keeps that hour of the day. |
| PeriodTimestamps.HourOf | ladybug/analysisperiod.py:179 | Definition of `curr.hour` for the pointer's minute of year. `FracHourOfMoy` proves it equal to the hour of its calendar value. |
| PeriodTimestamps.MinuteOf | ladybug/analysisperiod.py:179 | Definition of `curr.minute` for the pointer's minute of year. `FracHourOfMoy` proves it equal to the minute of its calendar value. |
| PeriodTimestamps.FracHour | ladybug/analysisperiod.py:179 | Definition of `curr.hour + curr.minute / 60.0`. Its range is proved by `FracHourRange`. |
| PeriodTimestamps.Past | ladybug/analysisperiod.py:178-182 | Definition of the pointer's value when the while loop ends. Its meaning is proved by `PastSteps` and `PastEnd`. |
| PeriodTimestamps.Walk | ladybug/analysisperiod.py:178-182 | Definition of what the while loop appends. Its meaning is proved by `WalkMembers` and `WalkIncreasing`, and `AnalysisPeriod.WalkWindow` is proved against it. |
| PeriodTimestamps.Ticks | ladybug/analysisperiod.py:188-191 | Definition of what the correction loop appends. Its meaning is proved by `TicksAt`, `TicksWithinHour` and `TicksCoverHour`, and `AnalysisPeriod.AppendTicks` is proved against it. |
| PeriodTimestamps.CalcTimestamps | ladybug/analysisperiod.py:164-191 | Definition of all one `_calcTimestamps` call appends. Its meaning is proved by `CalcMembers` and `CalcIncreasing`, and `AnalysisPeriod.CalcTimestamps` is proved against it. |
| PeriodTimestamps.Timestamps | ladybug/analysisperiod.py:193-199 | Definition of `_timestampsData` after `_calculateTimestamps`. Its meaning is proved by `TimestampsMembers` and `TimestampsOrder`, and the constructor is proved against it. |
| PeriodTimestamps.Sampled | ladybug/analysisperiod.py:178-182 | Reference definition, independent of the loop: a minute in [start, end] on the step grid whose fractional hour is possible. |
| PeriodTimestamps.Completed | ladybug/analysisperiod.py:184-191 | Reference definition of a minute the correction adds: a grid minute in the hour after an end in hour 23, when the correction runs. |
| PeriodTimestamps.InSpan | ladybug/analysisperiod.py:164-191 | Reference definition of one call's minutes: `Sampled` or `Completed`. `CalcMembers` proves the call equal to it. |
| PeriodTimestamps.InPeriod | ladybug/analysisperiod.py:193-199 | Reference definition of the period's minutes: one span, or the two spans of a reversed period. `TimestampsMembers` proves `_timestampsData` equal to it. |
| PeriodTimestamps.WalkMembers | ladybug/analysisperiod.py:178-182 | The while loop appends exactly the minutes in [start, end] that are a whole number of steps from the start and whose fractional hour is possible. |
| PeriodTimestamps.WalkIncreasing | ladybug/analysisperiod.py:178-182 | The while loop appends in strictly increasing order. |
| PeriodTimestamps.PastSteps | ladybug/analysisperiod.py:178-182 | A walk over k whole steps stops with the pointer one step past the end. |
| PeriodTimestamps.PastEnd | ladybug/analysisperiod.py:178-182 | A walk whose end is on the start's grid stops exactly one step past the end. |
| PeriodTimestamps.TicksAt | ladybug/analysisperiod.py:188-191 | The correction appends n values; the i-th is end + (i + 1) * step. |
| PeriodTimestamps.TicksNext | ladybug/analysisperiod.py:188-191 | Proof helper: unfolds one round of the for loop, which appends the next step after the last value. |
| PeriodTimestamps.TicksIncreasing | ladybug/analysisperiod.py:188-191 | The correction's values increase strictly. |
| PeriodTimestamps.TicksWithinHour | ladybug/analysisperiod.py:188-191 | Every correction value is a grid minute strictly between end and end + 60. |
| PeriodTimestamps.TicksCoverHour | ladybug/analysisperiod.py:188-191 | Every grid minute strictly between end and end + 60 is one of the correction's values. |
| PeriodTimestamps.CorrectionFires | ladybug/analysisperiod.py:184 | Definition of the condition under which the correction runs. `CorrectionCondition` states when it holds after a walk. |
| PeriodTimestamps.CorrectionCondition | ladybug/analysisperiod.py:184 | After a whole-hour walk, the correction runs exactly when the timestep is not 1, the end is in hour 23, and hour 0 is possible. |
| PeriodTimestamps.CalcIncreasing | ladybug/analysisperiod.py:164-191 | One call appends strictly increasing values in [start, end + 60). |
| PeriodTimestamps.CalcMembers | ladybug/analysisperiod.py:164-191 | One call appends exactly the sampled window minutes of the span plus, when the correction runs, the grid minutes of the hour after the end (both directions). |
| PeriodTimestamps.Boundaries | ladybug/analysisperiod.py:76 | Both boundaries are whole hours at most minute 525540, and `reversed` is "start minute > end minute". |
| PeriodTimestamps.CallsMembers | ladybug/analysisperiod.py:193-199 | One or two calls hold exactly the minutes of their one or two spans. |
| PeriodTimestamps.CallsBounds | ladybug/analysisperiod.py:193-199 | Each stored value is a minute of the year on the step grid. |
| PeriodTimestamps.CallsOrder | ladybug/analysisperiod.py:193-199 | The calls' values are in the year and on the grid. One call increases strictly; two calls are each increasing, with the second wholly below the first. No value repeats. |
| PeriodTimestamps.SeamBelow | ladybug/analysisperiod.py:197-199 | Every value of the walk from 1 January is below every value of the walk to 31 December. |
| PeriodTimestamps.TimestampsMembers | ladybug/analysisperiod.py:193-199 | `_timestampsData` holds exactly the minutes `InPeriod` describes (both directions). |
| PeriodTimestamps.TimestampsOrder | ladybug/analysisperiod.py:193-199 | Every stored minute is in [0, 525600) on the step grid. A non-reversed period is strictly increasing, and no minute is stored twice. |
| PeriodTimestamps.ReversedSeam | ladybug/analysisperiod.py:197-199 | A reversed period is the walk to 31 December 23:00 followed by the walk from 1 January 00:00. Each is increasing and the second lies wholly below the first. |
| PeriodTimestamps.TimestampsInWindow | ladybug/analysisperiod.py:184-191 | Every stored minute is in the daily window, except in the one case `CorrectionOutsideWindow`. |
| PeriodTimestamps.ReversedCorrectionLeavesWindow | ladybug/analysisperiod.py:184-198 | In that case, the first grid minute after 31 December 23:00 is stored although the window rejects it. |
| PeriodTimestamps.WholeDayPossible | ladybug/analysisperiod.py:156-159 | The 0-to-23 window admits every minute of the day, including hour 23's fractions. |
| PeriodTimestamps.WalkLengthWholeDay | ladybug/analysisperiod.py:178-182 | With the whole-day window, a walk over k steps keeps k + 1 values. |
| PeriodTimestamps.StepBelowHour | ladybug/analysisperiod.py:88 | For a timestep other than 1 the step is shorter than an hour. |
| PeriodTimestamps.WholeYearWalk | ladybug/analysisperiod.py:178-182 | The whole-day walk over the year keeps 8759 * timestep + 1 minutes and stops one step after 31 December 23:00. |
| PeriodTimestamps.WholeYearCorrection | ladybug/analysisperiod.py:184 | After that walk, the correction runs exactly when the timestep is not 1. |
| PeriodTimestamps.WholeYearLength | ladybug/analysisperiod.py:193-196 | A whole-day period from minute 0 to minute 525540 stores 8760 * timestep minutes. |
| PeriodTimestamps.DefaultPeriodLength | ladybug/analysisperiod.py:34-35 | The default period is valid for every timestep and stores 8760 * timestep minutes. |
| PeriodTimestamps.HoursOf | ladybug/analysisperiod.py:217 | `int(moy / 60)` of each minute, in order: the hour of the year the minute falls in. |
| PeriodTimestamps.HoursOfTimestamps | ladybug/analysisperiod.py:214-217 | A period's hours of year are in [0, 8760). |
| PeriodTimestamps.Annual | ladybug/analysisperiod.py:224 | `len / timestep == 8760` (Python 2 integer division) holds exactly when the length is in [8760 * timestep, 8761 * timestep). |
| PeriodTimestamps.DefaultIsAnnual | ladybug/analysisperiod.py:221-225 | The default period is annual for every valid timestep. |
| PeriodTimestamps.TimestampsOnGrid | ladybug/analysisperiod.py:193-199 | The stored minutes are a subset of the year's grid of 8760 * timestep minutes, with one entry per distinct minute. |
| PeriodTimestamps.AnnualCoversGrid | ladybug/analysisperiod.py:221-225 | A period that `isAnnual` accepts stores every grid minute of the year. |
| PeriodTimestamps.GridCoveredAnnual | ladybug/analysisperiod.py:221-225 | A period that stores every grid minute of the year is accepted by `isAnnual`. |
| PeriodTimestamps.AnnualMeansWholeGrid | ladybug/analysisperiod.py:221-225 | For every valid period, `isAnnual` holds exactly when every grid minute of the year is in the period (`InPeriod`), whatever its boundaries. |
| PeriodText.ParseAnalysisPeriod | ladybug/analysisperiod.py:136-145 | A parsed period is valid. Every failure is a ValueError (line 145). A text that does not split into seven pieces fails. |
| PeriodText.Weave | ladybug/analysisperiod.py:265 | Definition of fields interleaved with separators. Its meaning is proved by `WeaveJoin`, `WeaveReplace` and `TokensOfWeave`. |
| PeriodText.Format | ladybug/analysisperiod.py:265-269 | Definition of `"%s/%s to %s/%s between %s to %s @%d" % (...)` on seven integers. Its meaning is proved by `TokensOfFormat` and `ParseFormat`. |
| PeriodText.Repr | ladybug/analysisperiod.py:263-269 | Definition of `__repr__`'s text. Its meaning is proved by `TokensOfFormat`, and `ReprRoundTrip` inverts it. |
| PeriodText.Tokens | ladybug/analysisperiod.py:136-142 | Definition of the seven pieces after the `lower`/`replace` chain and `split(' ')`. Its meaning is proved by `TokensOfWeave` and `TokensOfFormat`. |
| PeriodText.StrPlain | ladybug/analysisperiod.py:265 | The text of an integer is non-empty and holds only digits and '-'. |
| PeriodText.SpacesAround | ladybug/analysisperiod.py:136 | `.replace(' ', '')` drops the spaces around a word. |
| PeriodText.SpacesRemoved | ladybug/analysisperiod.py:136 | Removing spaces turns " to ", " between " and " @" into "to", "between" and "@"; "/" is untouched. |
| PeriodText.ToReplaced | ladybug/analysisperiod.py:137 | `.replace('to', ' ')` turns "to" into a space and leaves "between", "/" and "@" unchanged. |
| PeriodText.WeaveNoUpper | ladybug/analysisperiod.py:136 | The text of the fields and separators has no upper-case letter when none of its parts has one. |
| PeriodText.WeaveReplace | ladybug/analysisperiod.py:136-140 | A replace whose pattern starts with neither a digit nor '-' leaves the integers' texts alone and acts on each separator. |
| PeriodText.WeaveJoin | ladybug/analysisperiod.py:142 | Fields separated by one separator character are that character's join. |
| PeriodText.SeparatorsStage | ladybug/analysisperiod.py:138-140 | `.replace(pat, ' ')` on the six separators turns each one equal to the pattern into a space and keeps the others. |
| PeriodText.ReplaceChain | ladybug/analysisperiod.py:136-140 | On a formatted text, the `lower` and `replace` chain leaves exactly the seven fields joined by single spaces. |
| PeriodText.PlainFieldsNoSpace | ladybug/analysisperiod.py:142 | No integer's text holds a space. |
| PeriodText.TokensOfWeave | ladybug/analysisperiod.py:136-142 | The chain and `split(' ')` recover the seven fields of a formatted text, in order. |
| PeriodText.TokensOfFormat | ladybug/analysisperiod.py:136-142 | The pieces of `__repr__`'s format are the texts of its seven integers, in format order. |
| PeriodText.ParseFormat | ladybug/analysisperiod.py:141-145 | Parsing a formatted text calls the constructor with the field texts (start hour in third place) and `int(timestep)`. It succeeds exactly when the constructor does, passing the period through unchanged; otherwise it fails with ValueError wrapping the constructor's error. |
| PeriodText.TextOfInt | ladybug/analysisperiod.py:143 | The text of an integer is truthy and `int()` reads it back. |
| PeriodText.NormalizeTextsOfValid | ladybug/analysisperiod.py:143 | The constructor given the texts of a valid period's fields builds that period. |
| PeriodText.ReprRoundTrip | ladybug/analysisperiod.py:263-269 | `fromAnalysisPeriodString(repr(p))` rebuilds `p` for every valid period. |
| PeriodText.TextEndDayBeyondMonthFails | ladybug/analysisperiod.py:54-58 | A text whose end day exceeds its month fails with ValueError wrapping the TypeError of line 56, rather than being clamped. |
| PyStrings.Lower | ladybug/analysisperiod.py:136 | `lower()` keeps the length and lower-cases each character in place. |
| PyStrings.Replace | ladybug/analysisperiod.py:136-140 | Definition of `s.replace(pat, rep)`: a left-to-right scan without overlaps. Its meaning is proved by `ReplaceAbsent`, `ReplaceWhole` and `ReplaceConcat`. |
| PyStrings.ReplaceAll | ladybug/analysisperiod.py:136-140 | The same length as the input, with each piece replaced. |
| PyStrings.Split | ladybug/analysisperiod.py:142 | Definition of `s.split(sep)`, empty pieces included; it always gives at least one piece. Its meaning is proved by `JoinSplit` and `SplitJoin`. |
| PyStrings.JoinWith | ladybug/analysisperiod.py:142 | Definition of `sep.join(parts)`. `JoinSplit` and `SplitJoin` prove it inverse to `Split`. |
| PyStrings.Strip | ladybug/analysisperiod.py:143 | Definition of `strip()`. Its meaning is proved by `StripPadded`. |
| PyStrings.Str | ladybug/analysisperiod.py:265-269 | Definition of `str(n)` and `%d`: a minus sign before the digits of a negative number. `ParseIntStr` proves `int(str(n)) == n`. |
| PyStrings.LowerNoUpper | ladybug/analysisperiod.py:136 | `lower()` leaves a string without upper-case letters unchanged. |
| PyStrings.ReplaceAbsent | ladybug/analysisperiod.py:136-140 | Replacing a pattern that does not occur changes nothing. |
| PyStrings.ReplaceWhole | ladybug/analysisperiod.py:136-140 | Replacing in the pattern itself gives the replacement. |
| PyStrings.ReplaceConcat | ladybug/analysisperiod.py:136-140 | Replace distributes over x + y when no occurrence of the pattern can start in x and end in y. |
| PyStrings.JoinSplit | ladybug/analysisperiod.py:142 | Joining the pieces of `split(sep)` with `sep` restores the text, and no piece holds `sep`. |
| PyStrings.SplitAtSeparator | ladybug/analysisperiod.py:142 | A separator after a separator-free prefix splits that prefix off. |
| PyStrings.SplitWhole | ladybug/analysisperiod.py:142 | A text without the separator is one piece. |
| PyStrings.SplitJoin | ladybug/analysisperiod.py:142 | Splitting a join of separator-free pieces gives the pieces back. |
| PyStrings.ParseInt | ladybug/analysisperiod.py:143 | `int()` of a string of decimal digits is their value; `ParseIntPadded` and `ParseIntSigned` state the white space and sign it also accepts. |
| PyStrings.StripPadded | ladybug/analysisperiod.py:143 | `strip()` removes exactly the white space around a text that starts and ends with a non-space character. |
| PyStrings.ParseIntPadded | ladybug/analysisperiod.py:143 | For all inputs: digits with white space before and after parse to the value of the digits. |
| PyStrings.ParseIntSigned | ladybug/analysisperiod.py:143 | For all inputs: white space, a `-` or `+` sign, white space after the sign, digits and trailing white space parse to the signed value of the digits, e.g. `int("- 5") == -5`. |
| PyStrings.Digits | ladybug/analysisperiod.py:265 | The decimal text of a natural number is all digits. |
| PyStrings.DigitsValueOfDigits | ladybug/analysisperiod.py:265 | A natural number's digits read back as that number. |
| PyStrings.ParseIntStr | ladybug/analysisperiod.py:143 | `int(str(n)) == n` for every integer. |
| AnalysisPeriods.AnalysisPeriod.constructor | ladybug/analysisperiod.py:48-97 | The fields are the settings, `minuteIntervals` is the step, and `timestampsData` is the full timestamp list of the period. |
| AnalysisPeriods.AnalysisPeriod.CalcTimestamps | ladybug/analysisperiod.py:164-191 | `_calcTimestamps` appends exactly the specification's walk and correction to the existing list. |
| AnalysisPeriods.AnalysisPeriod.WalkWindow | ladybug/analysisperiod.py:178-182 | The while loop appends the walk and leaves the pointer one step past the end. |
| AnalysisPeriods.AnalysisPeriod.AppendTicks | ladybug/analysisperiod.py:187-191 | The for loop appends the n minutes end + step, ..., end + n * step. |
| AnalysisPeriods.AnalysisPeriod.CalculateTimestamps | ladybug/analysisperiod.py:193-199 | Appends the period's list: one walk, or the walk to 31 December then the walk from 1 January. |
| AnalysisPeriods.AnalysisPeriod.IntHoys | ladybug/analysisperiod.py:214-217 | One hour of year per stored minute, in stored order, each the hour that minute falls in. |
| AnalysisPeriods.AnalysisPeriod.IsAnnual | ladybug/analysisperiod.py:221-225 | True exactly when the list length is in [8760 * timestep, 8761 * timestep). |
| AnalysisPeriods.AnalysisPeriod.IsTimeIncluded | ladybug/analysisperiod.py:234-250 | True exactly when the time's minute of year is in the period as `InPeriod` describes it. |
| AnalysisPeriods.AnalysisPeriod.New | ladybug/analysisperiod.py:34-97 | Succeeds exactly when `Normalize` does, with a fresh valid period of those settings; otherwise it gives the same error. |
| AnalysisPeriods.AnalysisPeriod.FromAnalysisPeriodString | ladybug/analysisperiod.py:127-145 | Succeeds exactly when the text parses, with a fresh valid period of the parsed settings; otherwise it gives the parse error. |
| AnalysisPeriods.InputTruthy | ladybug/analysisperiod.py:111 | Definition of `not analysisPeriod` on the inputs `fromAnalysisPeriod` takes (`PeriodInput`: None, a period object, a `str` or another value). |
| AnalysisPeriods.AnalysisPeriod.FromAnalysisPeriod | ladybug/analysisperiod.py:104-124 | A falsy input gives the default period. A period is returned as is. A string is parsed, and a failure becomes a ValueError naming the string. Any other truthy value gives None. |

## Left out

- ladybug/__init__.py: it only registers the package module (import plumbing) and has no logic to model.
- The `print` at ladybug/analysisperiod.py:57 is console output. The clamp it reports is modelled (`EndTime`, `ClampKeepsValidEndDay`, `NumericEndDayClamped`).
- `hoys` (line 212) is a floating-point view and is not modelled. `datetimes` (line 207) is covered only through `FromMoy` and `FromMoyMoy`.
- `ToString`, `__str__` and the `isAnalysisPeriod` property (lines 148-151, 253-260) are display aliases of `__repr__` and a marker property.
- `hasattr` duck typing at line 115 becomes the closed input type `PeriodInput`: None, a period, a string, or any other value with its truthiness.
- Leap years and the year value (2015) are not modelled. The source only uses the non-leap month table at line 30, and ladybug/dt.py is not part of this model; `DateTimes` states what is assumed of it.
- Python `datetime` and `timedelta` arithmetic becomes integer minutes. `timedelta(1 / (24.0 * timestep))` is taken to be exactly `60 / timestep` minutes, which holds after `timedelta`'s rounding to microseconds for every accepted timestep.
- `isPossibleHour` and the walk use exact rationals for `hour + minute / 60.0`. Every comparison the code makes is between such a value and a whole hour, where double precision gives the same answer.
- Constructor arguments are missing, integers or strings. Floats and other argument types are not modelled.
- `PyStrings.ParseInt` skips ASCII white space around the sign and the digits, as Python 2's `int()` does on a byte string. It does not model `int()` of a Unicode string, which also accepts other digits and spaces.
- Modelled as written, with no correction, because they are behaviours of the code rather than slips:
  - `CorrectionOutsideWindow`: the end-of-walk correction after 31 December 23:00 can append minutes outside the window.
  - `fromAnalysisPeriod` returns None for other inputs.
  - A string end month that needs clamping raises TypeError.
