/**
 * The text form of an analysis period: `__repr__` (ladybug/analysisperiod.py:263-269), which
 * writes "month/day to month/day between hour to hour @timestep", and
 * `fromAnalysisPeriodString` (lines 128-145), which reads such a text back through a chain of
 * `lower`, `replace` and `split` and hands the seven pieces to the constructor as strings.
 */
module PeriodText {
  import opened Results
  import opened DateTimes
  import opened PyStrings
  import opened PeriodSettings

  /**
   * The fields of a text separated by the given separators: fields[0], seps[0], fields[1], ...,
   * seps[n - 1], fields[n].
   */
  function Weave(fields: seq<string>, seps: seq<string>): string
    requires |fields| == |seps| + 1
    decreases |seps|
  {
    if seps == [] then fields[0] else fields[0] + seps[0] + Weave(fields[1..], seps[1..])
  }

  /** The fixed text between the fields of "%s/%s to %s/%s between %s to %s @%d". */
  const Separators: seq<string> := ["/", " to ", "/", " between ", " to ", " @"]

  /** "%s/%s to %s/%s between %s to %s @%d" filled with seven integers. */
  function Format(stMonth: int, stDay: int, endMonth: int, endDay: int,
                  stHour: int, endHour: int, timestep: int): string
  {
    Weave([Str(stMonth), Str(stDay), Str(endMonth), Str(endDay), Str(stHour), Str(endHour),
           Str(timestep)], Separators)
  }

  /** `repr(period)` */
  function Repr(s: Settings): string {
    Format(s.stTime.month, s.stTime.day, s.endTime.month, s.endTime.day,
           s.stTime.hour, s.endTime.hour, s.timestep)
  }

  /** The seven pieces line 142 unpacks, after the `lower` and `replace` chain of lines 136-140. */
  function Tokens(text: string): seq<string> {
    var ap := Replace(Replace(Replace(Replace(Replace(Lower(text), " ", ""), "to", " "),
                                      "/", " "), "between", " "), "@", " ");
    Split(ap, ' ')
  }

  /**
   * `AnalysisPeriod.fromAnalysisPeriodString(text)`: seven pieces, in the order start month, start
   * day, end month, end day, start hour, end hour, timestep, or ValueError. The timestep goes
   * through `int()`; the other six reach the constructor as strings. Any exception inside the
   * `try` is raised again as ValueError (line 145).
   */
  function ParseAnalysisPeriod(text: string): (r: Result<Settings, Error>)
    ensures r.Ok? ==> ValidSettings(r.value)
    ensures r.Err? ==> r.error.Unparsable?
    ensures |Tokens(text)| != 7 ==> r == Err(Unparsable(WrongFieldCount))
  {
    var t := Tokens(text);
    if |t| != 7 then Err(Unparsable(WrongFieldCount))
    else
      match ParseInt(t[6])
      case None => Err(Unparsable(NotAnInteger))
      case Some(timestep) =>
        match Normalize(Text(t[0]), Text(t[1]), Text(t[4]), Text(t[2]), Text(t[3]), Text(t[5]),
                        Num(timestep))
        case Ok(s) => Ok(s)
        case Err(e) => Err(Unparsable(e))
  }

  // ---------------------------------------------------------------- the text of an integer

  /** The characters `str()` of an integer uses. */
  predicate Plain(x: string) {
    forall i :: 0 <= i < |x| ==> x[i] == '-' || IsDigit(x[i])
  }

  lemma StrPlain(n: int)
    ensures |Str(n)| > 0 && Plain(Str(n))
  {
  }

  /** `.replace(' ', '')` drops the spaces around a word. */
  lemma SpacesAround(w: string)
    requires forall i :: 0 <= i < |w| ==> w[i] != ' '
    ensures Replace(" " + w, " ", "") == w && Replace(" " + w + " ", " ", "") == w
  {
    ReplaceWhole(" ", "");
    ReplaceAbsent(w, " ", "");
    ReplaceConcat(" ", w, " ", "");
    ReplaceConcat(w, " ", " ", "");
    ReplaceConcat(" ", w + " ", " ", "");
    assert " " + w + " " == " " + (w + " ");
  }

  lemma SpacesRemovedTo()
    ensures Replace(" to ", " ", "") == "to"
  {
    SpacesAround("to");
    assert " " + "to" + " " == " to ";
  }

  lemma SpacesRemovedBetween()
    ensures Replace(" between ", " ", "") == "between"
  {
    SpacesAround("between");
    assert " " + "between" + " " == " between ";
  }

  lemma SpacesRemovedAt()
    ensures Replace(" @", " ", "") == "@"
  {
    SpacesAround("@");
    assert " " + "@" == " @";
  }

  /** `.replace(' ', '')` on the fixed pieces of the format. */
  lemma SpacesRemoved()
    ensures Replace(" to ", " ", "") == "to" && Replace(" between ", " ", "") == "between"
    ensures Replace(" @", " ", "") == "@" && Replace("/", " ", "") == "/"
  {
    SpacesRemovedTo();
    SpacesRemovedBetween();
    SpacesRemovedAt();
    ReplaceAbsent("/", " ", "");
  }

  /** `.replace('to', ' ')` on the fixed pieces left after the spaces are removed. */
  lemma ToReplaced()
    ensures Replace("to", "to", " ") == " " && Replace("between", "to", " ") == "between"
    ensures Replace("/", "to", " ") == "/" && Replace("@", "to", " ") == "@"
    ensures Roomy("to", "to") && Roomy("between", "to")
  {
    ReplaceWhole("to", " ");
    BetweenKeepsTo();
    ReplaceAbsent("/", "to", " ");
    ReplaceAbsent("@", "to", " ");
  }

  /** "between" holds "t" but not "to". */
  lemma BetweenKeepsTo()
    ensures Replace("between", "to", " ") == "between" && Roomy("between", "to")
  {
    TweenKeepsTo();
    ReplaceAbsent("be", "to", " ");
    ReplaceConcat("be", "tween", "to", " ");
    assert "be" + "tween" == "between";
  }

  lemma TweenKeepsTo()
    ensures Replace("tween", "to", " ") == "tween"
  {
    ReplaceAbsent("ween", "to", " ");
    assert "tween"[..2] == "tw" && "tween"[1..] == "ween";
  }

  /** A woven text has no upper-case letter when neither its fields nor its separators have. */
  lemma {:induction false} WeaveNoUpper(fields: seq<string>, seps: seq<string>)
    requires |fields| == |seps| + 1
    requires forall k :: 0 <= k < |fields| ==> NoUpper(fields[k])
    requires forall k :: 0 <= k < |seps| ==> NoUpper(seps[k])
    ensures NoUpper(Weave(fields, seps))
    decreases |seps|
  {
    if seps != [] {
      WeaveNoUpper(fields[1..], seps[1..]);
      NoUpperAppend(fields[0], seps[0]);
      NoUpperAppend(fields[0] + seps[0], Weave(fields[1..], seps[1..]));
    }
  }

  /**
   * `replace` of a pattern that starts with neither a digit nor '-' leaves the integers' texts
   * alone and acts on each separator, when no occurrence straddles a separator's end.
   */
  lemma {:induction false} WeaveReplace(fields: seq<string>, seps: seq<string>, pat: string,
                                        rep: string)
    requires |pat| > 0 && pat[0] != '-' && !IsDigit(pat[0])
    requires |fields| == |seps| + 1
    requires forall k :: 0 <= k < |fields| ==> Plain(fields[k])
    requires forall k :: 0 <= k < |seps| ==> Roomy(seps[k], pat)
    ensures Replace(Weave(fields, seps), pat, rep) == Weave(fields, ReplaceAll(seps, pat, rep))
    decreases |seps|
  {
    var f := fields[0];
    ReplaceAbsent(f, pat, rep);
    if seps != [] {
      var rest := Weave(fields[1..], seps[1..]);
      assert Roomy(f, pat);
      ReplaceConcat(f, seps[0], pat, rep);
      RoomyAppend(f, seps[0], pat);
      ReplaceConcat(f + seps[0], rest, pat, rep);
      WeaveReplace(fields[1..], seps[1..], pat, rep);
      assert ReplaceAll(seps, pat, rep)[1..] == ReplaceAll(seps[1..], pat, rep);
    }
  }

  /** Weaving with a one-character separator throughout is `sep.join(fields)`. */
  lemma {:induction false} WeaveJoin(fields: seq<string>, seps: seq<string>, sep: char)
    requires |fields| == |seps| + 1
    requires forall k :: 0 <= k < |seps| ==> seps[k] == [sep]
    ensures Weave(fields, seps) == JoinWith(fields, sep)
    decreases |seps|
  {
    if seps != [] {
      WeaveJoin(fields[1..], seps[1..], sep);
    }
  }

  // ---------------------------------------------------------------- reading the text back

  /** The six separators all leave room for `pat` when each one does. */
  lemma RoomySix(q: seq<string>, pat: string)
    requires |pat| > 0 && |q| == 6
    requires Roomy(q[0], pat) && Roomy(q[1], pat) && Roomy(q[2], pat)
    requires Roomy(q[3], pat) && Roomy(q[4], pat) && Roomy(q[5], pat)
    ensures forall k :: 0 <= k < |q| ==> Roomy(q[k], pat)
  {
  }

  /** `replace` on the six separators, one at a time. */
  lemma ReplaceSix(q: seq<string>, pat: string, rep: string)
    requires |pat| > 0 && |q| == 6
    ensures ReplaceAll(q, pat, rep)
            == [Replace(q[0], pat, rep), Replace(q[1], pat, rep), Replace(q[2], pat, rep),
                Replace(q[3], pat, rep), Replace(q[4], pat, rep), Replace(q[5], pat, rep)]
  {
  }

  /** A one-character text that is not the first character of `pat` leaves room for it. */
  lemma RoomyChar(c: char, pat: string)
    requires |pat| > 0 && c != pat[0]
    ensures Roomy([c], pat)
  {
  }

  /** The separators after `.replace(' ', '')`. */
  lemma SeparatorsStage1()
    ensures forall k :: 0 <= k < |Separators| ==> Roomy(Separators[k], " ")
    ensures ReplaceAll(Separators, " ", "") == ["/", "to", "/", "between", "to", "@"]
  {
    SpacesRemoved();
    RoomyChar('/', " ");
    ReplaceSix(Separators, " ", "");
    RoomySix(Separators, " ");
  }

  /** ... after `.replace('to', ' ')`. */
  lemma SeparatorsStage2()
    ensures var q := ["/", "to", "/", "between", "to", "@"];
            && (forall k :: 0 <= k < |q| ==> Roomy(q[k], "to"))
            && ReplaceAll(q, "to", " ") == ["/", " ", "/", "between", " ", "@"]
  {
    var q := ["/", "to", "/", "between", "to", "@"];
    ToReplaced();
    RoomyChar('/', "to");
    RoomyChar('@', "to");
    ReplaceSix(q, "to", " ");
    RoomySix(q, "to");
  }

  /** A separator that is the pattern becomes `rep`; any other is kept. */
  function Kept(sep: string, pat: string, rep: string): string {
    if sep == pat then rep else sep
  }

  /**
   * `replace` on six separators, each either the pattern itself or free of its first character,
   * for a pattern whose first character does not come back: the pattern becomes `rep` and the
   * others are kept.
   */
  lemma SeparatorsStage(q: seq<string>, pat: string, rep: string)
    requires |q| == 6 && |pat| > 0 && forall i :: 0 < i < |pat| ==> pat[i] != pat[0]
    requires forall k :: 0 <= k < 6 ==> q[k] == pat || pat[0] !in q[k]
    ensures forall k :: 0 <= k < |q| ==> Roomy(q[k], pat)
    ensures ReplaceAll(q, pat, rep)
            == [Kept(q[0], pat, rep), Kept(q[1], pat, rep), Kept(q[2], pat, rep),
                Kept(q[3], pat, rep), Kept(q[4], pat, rep), Kept(q[5], pat, rep)]
  {
    ReplaceSix(q, pat, rep);
    forall k | 0 <= k < 6
      ensures Roomy(q[k], pat)
      ensures Replace(q[k], pat, rep) == Kept(q[k], pat, rep)
    {
      if q[k] == pat {
        ReplaceWhole(pat, rep);
      } else {
        ReplaceAbsent(q[k], pat, rep);
      }
    }
  }

  lemma WeaveSpaces(fields: seq<string>)
    requires |fields| == 7
    ensures Weave(fields, [" ", " ", " ", " ", " ", " "]) == JoinWith(fields, ' ')
  {
    WeaveJoin(fields, [" ", " ", " ", " ", " ", " "], ' ');
  }

  /** The woven text of integers' texts is already lower-case. */
  lemma WovenLower(fields: seq<string>)
    requires |fields| == 7 && forall k :: 0 <= k < 7 ==> Plain(fields[k])
    ensures Lower(Weave(fields, Separators)) == Weave(fields, Separators)
  {
    SeparatorsNoUpper();
    PlainNoUpper(fields);
    WeaveNoUpper(fields, Separators);
    LowerNoUpper(Weave(fields, Separators));
  }

  /** Integers' texts have no upper-case letter. */
  lemma PlainNoUpper(fields: seq<string>)
    requires forall k :: 0 <= k < |fields| ==> Plain(fields[k])
    ensures forall k :: 0 <= k < |fields| ==> NoUpper(fields[k])
  {
    forall k | 0 <= k < |fields| ensures NoUpper(fields[k]) {
      assert Plain(fields[k]);
    }
  }

  /** The separators have no upper-case letter. */
  lemma SeparatorsNoUpper()
    ensures forall k :: 0 <= k < |Separators| ==> NoUpper(Separators[k])
  {
    var q := Separators;
    assert NoUpper(q[0]) && NoUpper(q[1]) && NoUpper(q[2]);
    assert NoUpper(q[3]) && NoUpper(q[4]) && NoUpper(q[5]);
    NoUpperSix(q);
  }

  lemma NoUpperSix(q: seq<string>)
    requires |q| == 6
    requires NoUpper(q[0]) && NoUpper(q[1]) && NoUpper(q[2])
    requires NoUpper(q[3]) && NoUpper(q[4]) && NoUpper(q[5])
    ensures forall k :: 0 <= k < |q| ==> NoUpper(q[k])
  {
  }

  /** `.replace(' ', '')` acts on the separators alone. */
  lemma WovenSpaces(fields: seq<string>)
    requires |fields| == 7 && forall k :: 0 <= k < 7 ==> Plain(fields[k])
    ensures Replace(Weave(fields, Separators), " ", "")
            == Weave(fields, ReplaceAll(Separators, " ", ""))
  {
    SeparatorsStage1();
    WeaveReplace(fields, Separators, " ", "");
  }

  /** `.lower().replace(' ', '')` on the woven text. */
  lemma ChainSpaces(fields: seq<string>)
    requires |fields| == 7 && forall k :: 0 <= k < 7 ==> Plain(fields[k])
    ensures Replace(Lower(Weave(fields, Separators)), " ", "")
            == Weave(fields, ["/", "to", "/", "between", "to", "@"])
  {
    WovenLower(fields);
    WovenSpaces(fields);
    SeparatorsStage1();
  }

  /** `.replace('to', ' ')` on the woven text. */
  lemma ChainTo(fields: seq<string>)
    requires |fields| == 7 && forall k :: 0 <= k < 7 ==> Plain(fields[k])
    ensures Replace(Weave(fields, ["/", "to", "/", "between", "to", "@"]), "to", " ")
            == Weave(fields, ["/", " ", "/", "between", " ", "@"])
  {
    SeparatorsStage2();
    WeaveReplace(fields, ["/", "to", "/", "between", "to", "@"], "to", " ");
  }

  /** `.replace('/', ' ')` on the woven text. */
  lemma ChainSlash(fields: seq<string>)
    requires |fields| == 7 && forall k :: 0 <= k < 7 ==> Plain(fields[k])
    ensures Replace(Weave(fields, ["/", " ", "/", "between", " ", "@"]), "/", " ")
            == Weave(fields, [" ", " ", " ", "between", " ", "@"])
  {
    var q := ["/", " ", "/", "between", " ", "@"];
    SeparatorsStage(q, "/", " ");
    assert ReplaceAll(q, "/", " ") == [" ", " ", " ", "between", " ", "@"];
    WeaveReplace(fields, ["/", " ", "/", "between", " ", "@"], "/", " ");
  }

  /** `.replace('between', ' ')` on the woven text. */
  lemma ChainBetween(fields: seq<string>)
    requires |fields| == 7 && forall k :: 0 <= k < 7 ==> Plain(fields[k])
    ensures Replace(Weave(fields, [" ", " ", " ", "between", " ", "@"]), "between", " ")
            == Weave(fields, [" ", " ", " ", " ", " ", "@"])
  {
    var q := [" ", " ", " ", "between", " ", "@"];
    SeparatorsStage(q, "between", " ");
    assert ReplaceAll(q, "between", " ") == [" ", " ", " ", " ", " ", "@"];
    WeaveReplace(fields, [" ", " ", " ", "between", " ", "@"], "between", " ");
  }

  /** `.replace('@', ' ')` on the woven text leaves the fields joined by single spaces. */
  lemma ChainAt(fields: seq<string>)
    requires |fields| == 7 && forall k :: 0 <= k < 7 ==> Plain(fields[k])
    ensures Replace(Weave(fields, [" ", " ", " ", " ", " ", "@"]), "@", " ")
            == JoinWith(fields, ' ')
  {
    var q := [" ", " ", " ", " ", " ", "@"];
    SeparatorsStage(q, "@", " ");
    assert ReplaceAll(q, "@", " ") == [" ", " ", " ", " ", " ", " "];
    WeaveReplace(fields, [" ", " ", " ", " ", " ", "@"], "@", " ");
    WeaveSpaces(fields);
  }

  /** The `lower` and `replace` chain turns every separator into a single space. */
  lemma ReplaceChain(fields: seq<string>)
    requires |fields| == 7 && forall k :: 0 <= k < 7 ==> Plain(fields[k])
    ensures Replace(Replace(Replace(Replace(Replace(Lower(Weave(fields, Separators)), " ", ""),
                                            "to", " "), "/", " "), "between", " "), "@", " ")
            == JoinWith(fields, ' ')
  {
    ChainSpaces(fields);
    ChainTo(fields);
    ChainSlash(fields);
    ChainBetween(fields);
    ChainAt(fields);
  }

  /** No integer's text holds a space. */
  lemma PlainFieldsNoSpace(fields: seq<string>)
    requires forall k :: 0 <= k < |fields| ==> Plain(fields[k])
    ensures forall k, i :: 0 <= k < |fields| && 0 <= i < |fields[k]| ==> fields[k][i] != ' '
  {
    forall k, i | 0 <= k < |fields| && 0 <= i < |fields[k]| ensures fields[k][i] != ' ' {
      assert Plain(fields[k]);
    }
  }

  /** The whole chain of lines 136-142 recovers seven integers' texts, in order. */
  lemma TokensOfWeave(fields: seq<string>)
    requires |fields| == 7 && forall k :: 0 <= k < 7 ==> Plain(fields[k])
    ensures Tokens(Weave(fields, Separators)) == fields
  {
    ReplaceChain(fields);
    assert Tokens(Weave(fields, Separators)) == Split(JoinWith(fields, ' '), ' ');
    PlainFieldsNoSpace(fields);
    SplitJoin(fields, ' ');
  }

  lemma TokensOfFormat(stMonth: int, stDay: int, endMonth: int, endDay: int,
                       stHour: int, endHour: int, timestep: int)
    ensures Tokens(Format(stMonth, stDay, endMonth, endDay, stHour, endHour, timestep))
            == [Str(stMonth), Str(stDay), Str(endMonth), Str(endDay),
                Str(stHour), Str(endHour), Str(timestep)]
  {
    StrPlain(stMonth); StrPlain(stDay); StrPlain(endMonth); StrPlain(endDay);
    StrPlain(stHour); StrPlain(endHour); StrPlain(timestep);
    TokensOfWeave([Str(stMonth), Str(stDay), Str(endMonth), Str(endDay),
                   Str(stHour), Str(endHour), Str(timestep)]);
  }

  /**
   * Reading a formatted text calls the constructor with the seven integers' texts, the timestep
   * converted back by `int()`: the period it builds is passed through unchanged, and the exception
   * it raises comes back as ValueError.
   */
  lemma ParseFormat(stMonth: int, stDay: int, endMonth: int, endDay: int,
                    stHour: int, endHour: int, timestep: int)
    ensures var r := ParseAnalysisPeriod(Format(stMonth, stDay, endMonth, endDay, stHour, endHour,
                                                timestep));
            var n := Normalize(Text(Str(stMonth)), Text(Str(stDay)), Text(Str(stHour)),
                               Text(Str(endMonth)), Text(Str(endDay)), Text(Str(endHour)),
                               Num(timestep));
            && (r.Ok? <==> n.Ok?)
            && (r.Ok? ==> r.value == n.value)
            && (r.Err? ==> r.error == Unparsable(n.error))
  {
    TokensOfFormat(stMonth, stDay, endMonth, endDay, stHour, endHour, timestep);
    ParseIntStr(timestep);
  }

  /** The text of an integer is a truthy string that `int()` reads back. */
  lemma TextOfInt(n: int)
    ensures Truthy(Text(Str(n))) && ToInt(Text(Str(n))) == Ok(n)
  {
    StrPlain(n);
    ParseIntStr(n);
  }

  /** The constructor given the texts of a valid period's fields builds that period. */
  lemma NormalizeTextsOfValid(s: Settings)
    requires ValidSettings(s)
    ensures Normalize(Text(Str(s.stTime.month)), Text(Str(s.stTime.day)), Text(Str(s.stTime.hour)),
                      Text(Str(s.endTime.month)), Text(Str(s.endTime.day)),
                      Text(Str(s.endTime.hour)), Num(s.timestep))
            == Ok(s)
  {
    TextOfInt(s.stTime.month); TextOfInt(s.stTime.day); TextOfInt(s.stTime.hour);
    TextOfInt(s.endTime.month); TextOfInt(s.endTime.day); TextOfInt(s.endTime.hour);
    NormalizeOfFields(Text(Str(s.stTime.month)), Text(Str(s.stTime.day)), Text(Str(s.stTime.hour)),
                      Text(Str(s.endTime.month)), Text(Str(s.endTime.day)),
                      Text(Str(s.endTime.hour)), s);
  }

  /** `fromAnalysisPeriodString(repr(p))` rebuilds `p`. */
  lemma ReprRoundTrip(s: Settings)
    requires ValidSettings(s)
    ensures ParseAnalysisPeriod(Repr(s)) == Ok(s)
  {
    ParseFormat(s.stTime.month, s.stTime.day, s.endTime.month, s.endTime.day,
                s.stTime.hour, s.endTime.hour, s.timestep);
    NormalizeTextsOfValid(s);
  }

  /**
   * An end day beyond its month fails in the text form: the end month arrives as a string, so
   * the clamp's `endMonth - 1` at line 56 raises TypeError, re-raised as ValueError.
   */
  lemma TextEndDayBeyondMonthFails(stMonth: int, stDay: int, endMonth: int, endDay: int,
                                   stHour: int, endHour: int, timestep: int)
    requires IsValid(DateTime(stMonth, stDay, stHour, 0))
    requires 1 <= endMonth <= 12 && endDay > DaysInMonth(endMonth)
    ensures ParseAnalysisPeriod(Format(stMonth, stDay, endMonth, endDay, stHour, endHour, timestep))
            == Err(Unparsable(TextEndMonth))
  {
    ParseFormat(stMonth, stDay, endMonth, endDay, stHour, endHour, timestep);
    TextOfInt(stMonth); TextOfInt(stDay); TextOfInt(stHour);
    TextOfInt(endMonth); TextOfInt(endDay);
    StartTimeOfFields(Text(Str(stMonth)), Text(Str(stDay)), Text(Str(stHour)),
                      DateTime(stMonth, stDay, stHour, 0));
    ClampTextEndMonthRaises(Text(Str(stMonth)), Text(Str(stDay)), Text(Str(stHour)), Str(endMonth),
                            Text(Str(endDay)), Text(Str(endHour)), Num(timestep));
  }
}
