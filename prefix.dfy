/** The file name prefix of getUTCPrefix: the instant laid out in UTC with the
    SimpleDateFormat pattern yyyy-MM-dd_HH-mm-ss, followed by the literal _UTC__. */
module Prefix {
  import opened Wrappers
  import opened Decimal
  import opened Civil

  const Suffix: string := "_UTC__"
  const MillisPerSecond: nat := 1000

  /** The first millisecond of year 10000. */
  const FirstMilliOfYear10000: nat := FirstSecondOfYear10000 * MillisPerSecond

  /** Length of everything after the year field: -MM-dd_HH-mm-ss and the suffix. */
  const TailLength: nat := 21

  /** The fields laid out with the pattern yyyy-MM-dd_HH-mm-ss: the year with at
      least four digits, every other field with at least two. */
  function Format(dt: DateTime): string
  {
    Padded(dt.year, 4) + Layout(Padded(dt.month, 2), Padded(dt.day, 2), Padded(dt.hour, 2),
                                Padded(dt.minute, 2), Padded(dt.second, 2))
  }

  /** The part of the pattern after the year: -MM-dd_HH-mm-ss. */
  function Layout(month: string, day: string, hour: string, minute: string, second: string): string
  {
    "-" + month + "-" + day + "_" + hour + "-" + minute + "-" + second
  }

  /** getUTCPrefix of a java.util.Date holding `millis` milliseconds since the
      epoch; the pattern has no field below the second, so the milliseconds are dropped. */
  function UtcPrefix(millis: nat): string
  {
    Format(FromEpochSeconds(millis / MillisPerSecond)) + Suffix
  }

  /** Reads the calendar fields back from a prefix: the year is everything before
      the last 21 characters, which must be -MM-dd_HH-mm-ss_UTC__. */
  function ParsePrefix(s: string): Option<DateTime>
  {
    if |s| < 4 + TailLength then None
    else
      var year := s[..|s| - TailLength];
      match ParseTail(s[|s| - TailLength..])
      case Some(fields) =>
        if AllDigits(year) then Some(fields.(year := Value(year))) else None
      case None => None
  }

  /** Reads -MM-dd_HH-mm-ss_UTC__ into the fields below the year (left at 0). */
  function ParseTail(t: string): Option<DateTime>
    requires |t| == TailLength
  {
    if && t[0] == '-' && t[3] == '-' && t[6] == '_' && t[9] == '-' && t[12] == '-'
       && t[15..] == Suffix
       && AllDigits(t[1..3]) && AllDigits(t[4..6]) && AllDigits(t[7..9])
       && AllDigits(t[10..12]) && AllDigits(t[13..15])
    then Some(DateTime(0, Value(t[1..3]), Value(t[4..6]), Value(t[7..9]), Value(t[10..12]), Value(t[13..15])))
    else None
  }

  /** Where each two-digit field and each separator sits after the year. */
  lemma {:induction false} LayoutSlices(month: string, day: string, hour: string, minute: string, second: string)
    requires |month| == 2 && |day| == 2 && |hour| == 2 && |minute| == 2 && |second| == 2
    ensures var t := Layout(month, day, hour, minute, second) + Suffix;
            && |t| == TailLength
            && t[0] == '-' && t[3] == '-' && t[6] == '_' && t[9] == '-' && t[12] == '-'
            && t[1..3] == month && t[4..6] == day && t[7..9] == hour
            && t[10..12] == minute && t[13..15] == second && t[15..] == Suffix
  {
  }

  lemma TwoDigits(n: nat)
    requires n < 100
    ensures |Padded(n, 2)| == 2
  {
    PaddedWidth(n, 2);
  }

  /** The prefix is the year field followed by 21 characters of fixed layout. */
  lemma PrefixLayout(millis: nat)
    ensures var dt := FromEpochSeconds(millis / MillisPerSecond);
            var s, w := UtcPrefix(millis), |Padded(dt.year, 4)|;
            && w >= 4 && |s| == w + TailLength
            && s[..w] == Padded(dt.year, 4)
            && s[w..] == Layout(Padded(dt.month, 2), Padded(dt.day, 2), Padded(dt.hour, 2),
                                Padded(dt.minute, 2), Padded(dt.second, 2)) + Suffix
  {
    var dt := FromEpochSeconds(millis / MillisPerSecond);
    TwoDigits(dt.month);
    TwoDigits(dt.day);
    TwoDigits(dt.hour);
    TwoDigits(dt.minute);
    TwoDigits(dt.second);
    var y := Padded(dt.year, 4);
    var l := Layout(Padded(dt.month, 2), Padded(dt.day, 2), Padded(dt.hour, 2),
                    Padded(dt.minute, 2), Padded(dt.second, 2));
    LayoutSlices(Padded(dt.month, 2), Padded(dt.day, 2), Padded(dt.hour, 2),
                 Padded(dt.minute, 2), Padded(dt.second, 2));
    ConcatAssociative(y, l, Suffix);
    SplitAt(y, l + Suffix);
  }

  lemma {:induction false} SplitAt(x: string, y: string)
    ensures (x + y)[..|x|] == x && (x + y)[|x|..] == y
  {
  }

  /** Parsing any year field and two-digit fields in the layout reads their values. */
  lemma {:induction false} ParseLayout(year: string, month: string, day: string, hour: string, minute: string, second: string)
    requires |year| >= 4 && |month| == 2 && |day| == 2 && |hour| == 2 && |minute| == 2 && |second| == 2
    requires AllDigits(year) && AllDigits(month) && AllDigits(day)
    requires AllDigits(hour) && AllDigits(minute) && AllDigits(second)
    ensures ParsePrefix(year + Layout(month, day, hour, minute, second) + Suffix)
         == Some(DateTime(Value(year), Value(month), Value(day), Value(hour), Value(minute), Value(second)))
  {
    ParseTailOfLayout(month, day, hour, minute, second);
    ConcatAssociative(year, Layout(month, day, hour, minute, second), Suffix);
    ParseJoined(year, Layout(month, day, hour, minute, second) + Suffix,
                DateTime(0, Value(month), Value(day), Value(hour), Value(minute), Value(second)));
  }

  lemma {:induction false} ConcatAssociative(a: string, b: string, c: string)
    ensures a + b + c == a + (b + c)
  {
  }

  /** A year field followed by a tail is parsed as that year and that tail. */
  lemma {:induction false} ParseJoined(year: string, t: string, fields: DateTime)
    requires |year| >= 4 && AllDigits(year) && |t| == TailLength
    requires ParseTail(t) == Some(fields)
    ensures ParsePrefix(year + t) == Some(fields.(year := Value(year)))
  {
    var s := year + t;
    assert s[..|s| - TailLength] == year;
    assert s[|s| - TailLength..] == t;
  }

  lemma {:induction false} ParseTailOfLayout(month: string, day: string, hour: string, minute: string, second: string)
    requires |month| == 2 && |day| == 2 && |hour| == 2 && |minute| == 2 && |second| == 2
    requires AllDigits(month) && AllDigits(day) && AllDigits(hour) && AllDigits(minute) && AllDigits(second)
    ensures |Layout(month, day, hour, minute, second) + Suffix| == TailLength
    ensures ParseTail(Layout(month, day, hour, minute, second) + Suffix)
         == Some(DateTime(0, Value(month), Value(day), Value(hour), Value(minute), Value(second)))
  {
    var t := Layout(month, day, hour, minute, second) + Suffix;
    LayoutSlices(month, day, hour, minute, second);
    assert t[1..3] == month;
    assert t[10..12] == minute && t[13..15] == second;
  }

  /** Parsing a prefix gives back the UTC fields of the instant it was made from. */
  lemma ParseUtcPrefix(millis: nat)
    ensures ParsePrefix(UtcPrefix(millis)) == Some(FromEpochSeconds(millis / MillisPerSecond))
  {
    var dt := FromEpochSeconds(millis / MillisPerSecond);
    TwoDigits(dt.month);
    TwoDigits(dt.day);
    TwoDigits(dt.hour);
    TwoDigits(dt.minute);
    TwoDigits(dt.second);
    ParseLayout(Padded(dt.year, 4), Padded(dt.month, 2), Padded(dt.day, 2), Padded(dt.hour, 2),
                Padded(dt.minute, 2), Padded(dt.second, 2));
    ValueOfPadded(dt.year, 4);
    ValueOfPadded(dt.month, 2);
    ValueOfPadded(dt.day, 2);
    ValueOfPadded(dt.hour, 2);
    ValueOfPadded(dt.minute, 2);
    ValueOfPadded(dt.second, 2);
  }

  /** Two instants get the same prefix exactly when they fall in the same second. */
  lemma UtcPrefixInjective(a: nat, b: nat)
    ensures UtcPrefix(a) == UtcPrefix(b) <==> a / MillisPerSecond == b / MillisPerSecond
  {
    if UtcPrefix(a) == UtcPrefix(b) {
      ParseUtcPrefix(a);
      ParseUtcPrefix(b);
      assert FromEpochSeconds(a / MillisPerSecond) == FromEpochSeconds(b / MillisPerSecond);
    }
  }

  /** The prefix is exactly 25 characters for instants before year 10000 and
      longer after; it is never shorter. */
  lemma UtcPrefixLength(millis: nat)
    ensures |UtcPrefix(millis)| >= 25
    ensures |UtcPrefix(millis)| == 25 <==> millis < FirstMilliOfYear10000
  {
    var dt := FromEpochSeconds(millis / MillisPerSecond);
    PrefixLayout(millis);
    YearBelow10000(millis / MillisPerSecond);
    PaddedWidth(dt.year, 4);
    assert Pow10(4) == 10000;
  }

  /** The year field ends at the first character that is not a digit. */
  lemma YearDigitRun(millis: nat)
    ensures var s := UtcPrefix(millis);
            |s| >= 4 + TailLength && AllDigits(s[..|s| - TailLength]) && s[|s| - TailLength] == '-'
  {
    PrefixLayout(millis);
  }

  /** A prefix followed by a name splits back into that prefix and that name:
      the year field is the run of digits before the first '-', so two prefixes
      with a name after them can only agree if prefixes and names both agree. */
  lemma PrefixUnambiguous(a: nat, b: nat, name1: string, name2: string)
    requires UtcPrefix(a) + name1 == UtcPrefix(b) + name2
    ensures UtcPrefix(a) == UtcPrefix(b) && name1 == name2
  {
    YearDigitRun(a);
    YearDigitRun(b);
    DigitRunSplit(UtcPrefix(a), UtcPrefix(b), name1, name2);
  }

  /** Two strings that each have a digit run of their own length minus 21 before
      a '-' determine where they end inside any longer string. */
  lemma {:induction false} DigitRunSplit(s1: string, s2: string, name1: string, name2: string)
    requires |s1| >= TailLength && AllDigits(s1[..|s1| - TailLength]) && s1[|s1| - TailLength] == '-'
    requires |s2| >= TailLength && AllDigits(s2[..|s2| - TailLength]) && s2[|s2| - TailLength] == '-'
    requires s1 + name1 == s2 + name2
    ensures s1 == s2 && name1 == name2
  {
    var w1, w2 := |s1| - TailLength, |s2| - TailLength;
    var joined := s1 + name1;
    assert joined[w1] == '-' && joined[w2] == '-';
    assert forall i :: 0 <= i < w1 ==> IsDigit(joined[i]) by {
      forall i | 0 <= i < w1 ensures IsDigit(joined[i]) { assert joined[i] == s1[..w1][i]; }
    }
    assert forall i :: 0 <= i < w2 ==> IsDigit(joined[i]) by {
      forall i | 0 <= i < w2 ensures IsDigit(joined[i]) { assert joined[i] == (s2 + name2)[i] == s2[..w2][i]; }
    }
    assert s1 == joined[..|s1|] && s2 == joined[..|s2|];
    assert name1 == joined[|s1|..] && name2 == joined[|s2|..];
  }

  /** The calendar fields of 2021-03-15T14:30:00Z, the example in README. */
  lemma ExampleFields()
    ensures FromEpochSeconds(1615818600) == DateTime(2021, 3, 15, 14, 30, 0)
  {
    var dt := DateTime(2021, 3, 15, 14, 30, 0);
    assert DaysBeforeYear(2021) == 18628 by { DaysBeforeYearClosedForm(2021); }
    assert DaysBeforeMonth(2021, 3) == 59;
    assert DayNumber(dt) == 18701;
    assert SecondOfDay(dt) == 52200;
    assert EpochSeconds(dt) == 1615818600;
    FromEpochSecondsOfFields(dt);
  }

  /** The fields of 2021-03-15T14:30:00Z laid out with the pattern. */
  lemma FormatExample()
    ensures Format(DateTime(2021, 3, 15, 14, 30, 0)) == "2021-03-15_14-30-00"
  {
    YearExample();
    LayoutExample();
  }

  lemma YearExample()
    ensures Padded(2021, 4) == "2021"
  {
    assert Numeral(20) == "20";
    assert Numeral(202) == "202";
    assert Numeral(2021) == "2021";
  }

  lemma LayoutExample()
    ensures Layout(Padded(3, 2), Padded(15, 2), Padded(14, 2), Padded(30, 2), Padded(0, 2)) == "-03-15_14-30-00"
  {
    PaddedExamples();
  }

  lemma PaddedExamples()
    ensures Padded(3, 2) == "03" && Padded(15, 2) == "15" && Padded(14, 2) == "14"
    ensures Padded(30, 2) == "30" && Padded(0, 2) == "00"
  {
    assert Numeral(15) == "15";
    assert Numeral(14) == "14";
    assert Numeral(30) == "30";
  }

  /** A file last modified at 2021-03-15T14:30:00Z (the example in README). */
  lemma UtcPrefixExample(millis: nat)
    requires millis == 1615818600000
    ensures UtcPrefix(millis) == "2021-03-15_14-30-00_UTC__"
  {
    ExampleFields();
    FormatExample();
  }
}
