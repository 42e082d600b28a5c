/**
  The date-string parser `convert_str_to_dt` and its month table
  `MONTH_NAME_TO_INT`, for strings such as "05 Mar 23, 2:30 pm".

  A call has three outcomes, kept apart in `Conversion`:
  - a stage fails, the parser prints a message and returns `None` (`Failed`);
  - every stage passes and `datetime(...)` accepts the fields (`Converted`);
  - every stage passes but `datetime(...)` raises on an out-of-range field (`Raised`).
 */
module DateParser {
  import opened Wrappers
  import opened Strings

  // ---------------------------------------------------------------------
  // The month table
  // ---------------------------------------------------------------------

  /** `MONTH_NAME_TO_INT`: lower-case month abbreviations to 0-based indexes. */
  const MonthNameToInt: map<string, int> := map[
    "jan" := 0, "feb" := 1, "mar" := 2, "apr" := 3, "may" := 4, "jun" := 5,
    "jul" := 6, "aug" := 7, "sep" := 8, "oct" := 9, "nov" := 10, "dec" := 11]

  /** The same twelve abbreviations in calendar order, the reference for the table. */
  const MonthNames: seq<string> :=
    ["jan", "feb", "mar", "apr", "may", "jun", "jul", "aug", "sep", "oct", "nov", "dec"]

  /** The table's keys are exactly the twelve abbreviations, and each maps to its place in the calendar list. */
  lemma MonthTableInCalendarOrder()
    ensures forall key :: key in MonthNameToInt <==> key in MonthNames
    ensures forall k :: 0 <= k < |MonthNames| ==> MonthNames[k] in MonthNameToInt && MonthNameToInt[MonthNames[k]] == k
  {
  }

  /**
    `MONTH_NAME_TO_INT[token.lower()]`, `None` standing for the `KeyError`:
    defined exactly on the twelve abbreviations in any letter case, and each
    maps to its 0-based place in the calendar.
   */
  function MonthIndex(token: string): (r: Option<int>)
    ensures r.Some? <==> Lower(token) in MonthNames
    ensures r.Some? ==> 0 <= r.value < 12 && MonthNames[r.value] == Lower(token)
  {
    var key := Lower(token);
    if key in MonthNameToInt then Some(MonthNameToInt[key]) else None
  }

  // ---------------------------------------------------------------------
  // The datetime constructor
  // ---------------------------------------------------------------------

  datatype DateTime = DateTime(year: int, month: int, day: int, hour: int, minute: int)

  predicate IsLeapYear(y: int) {
    y % 4 == 0 && (y % 100 != 0 || y % 400 == 0)
  }

  /** The Gregorian month lengths: 28 to 31 days, and 29 in February exactly in a leap year. */
  function DaysInMonth(y: int, m: int): (n: int)
    requires 1 <= m <= 12
    ensures 28 <= n <= 31
    ensures n == 31 <==> m in {1, 3, 5, 7, 8, 10, 12}
    ensures m == 2 ==> (n == 29 <==> IsLeapYear(y))
  {
    if m == 2 then (if IsLeapYear(y) then 29 else 28)
    else if m == 4 || m == 6 || m == 9 || m == 11 then 30
    else 31
  }

  /** The ranges `datetime(...)` accepts; outside them it raises. */
  predicate IsValid(d: DateTime) {
    && 1 <= d.year <= 9999
    && 1 <= d.month <= 12
    && 1 <= d.day <= DaysInMonth(d.year, d.month)
    && 0 <= d.hour <= 23
    && 0 <= d.minute <= 59
  }

  /** Which `try` block printed its message and returned `None`. */
  datatype Stage = Structure | Day | Month | Year | Time

  datatype Conversion = Converted(dt: DateTime) | Failed(stage: Stage) | Raised

  /** `datetime(year=..., month=..., day=..., hour=..., minute=...)`. */
  function NewDateTime(d: DateTime): (r: Conversion)
    ensures r.Converted? <==> IsValid(d)
    ensures r.Converted? ==> r.dt == d
    ensures !r.Converted? ==> r == Raised
  {
    if IsValid(d) then Converted(d) else Raised
  }

  // ---------------------------------------------------------------------
  // convert_str_to_dt
  // ---------------------------------------------------------------------

  /** What the parse stages hand to the constructor; `pm` records the marker. */
  datatype Fields = Fields(day: int, monthIndex: int, year: int, hours: int, minutes: int, pm: bool)

  /** The century written in front of the two-digit year token. */
  const Century: string := "20"

  /** The value of those two digits. */
  const CenturyValue: nat := 20

  /**
    The stages of `convert_str_to_dt` in the source's order, each with its
    early failure: split on ", " into two sections and the date section on
    whitespace into three tokens; the day; the month; the year as the integer
    of `Century` followed by the year token; then the time section as exactly two
    words, an am/pm marker and a clock of exactly two integers around ':'.
   */
  function ParseFields(s: string): (r: Result<Fields, Stage>)
    ensures r.Success? ==>
      var sections := Split(s, ", ");
      && |sections| == 2 && |SplitWs(sections[0])| == 3
      && ParseTime(SplitWs(sections[1])) == Some(Clock(r.value.hours, r.value.minutes, r.value.pm))
    ensures r.Success? ==> 0 <= r.value.monthIndex < 12
  {
    var sections := Split(s, ", ");
    if |sections| != 2 then Failure(Structure)
    else
      var date := SplitWs(sections[0]);
      if |date| != 3 then Failure(Structure)
      else
        var day := ParseInt(date[0]);
        if day.None? then Failure(Day)
        else
          var month := MonthIndex(date[1]);
          if month.None? then Failure(Month)
          else
            var year := ParseInt(Century + date[2]);
            if year.None? then Failure(Year)
            else
              match ParseTime(SplitWs(sections[1]))
              case None => Failure(Time)
              case Some(clock) =>
                Success(Fields(day.value, month.value, year.value, clock.hours, clock.minutes, clock.pm))
  }

  datatype Clock = Clock(hours: int, minutes: int, pm: bool)

  /** The time stage: two words, `<hours>:<minutes>` and an am/pm marker in any letter case. */
  function ParseTime(time: seq<string>): (r: Option<Clock>)
    ensures r.Some? <==> |time| == 2 && Lower(time[1]) in {"am", "pm"} && IsClock(time[0])
    ensures r.Some? ==> (r.value.pm <==> Lower(time[1]) == "pm")
  {
    if |time| != 2 || Lower(time[1]) !in {"am", "pm"} then None
    else
      var clock := Split(time[0], ":");
      if |clock| != 2 then None
      else
        var hours := ParseInt(clock[0]);
        var minutes := ParseInt(clock[1]);
        if hours.None? || minutes.None? then None
        else Some(Clock(hours.value, minutes.value, Lower(time[1]) == "pm"))
  }

  /**
    `convert_str_to_dt`: the 0-based month index goes to the constructor as
    the month and "pm" adds 12 to the hour. So a result is a valid date whose
    month is never December, and an input naming January never converts.
   */
  function ConvertStrToDt(s: string): (r: Conversion)
    ensures r.Converted? ==> IsValid(r.dt) && r.dt.month <= 11
    ensures r.Converted? ==> ParseFields(s).Success? && ParseFields(s).value.monthIndex >= 1
    ensures r.Failed? <==> ParseFields(s).Failure?
  {
    match ParseFields(s)
    case Failure(stage) => Failed(stage)
    case Success(f) =>
      NewDateTime(DateTime(f.year, f.monthIndex, f.day, if f.pm then f.hours + 12 else f.hours, f.minutes))
  }

  // ---------------------------------------------------------------------
  // Properties
  // ---------------------------------------------------------------------

  /** A clock word is two integers around a single ':'. */
  predicate IsClock(t: string) {
    var parts := Split(t, ":");
    |parts| == 2 && ParseInt(parts[0]).Some? && ParseInt(parts[1]).Some?
  }

  /**
    The structural failures: a string that does not split into two sections,
    whose date section is not three words, whose time section is not two
    words, whose marker is not am/pm or whose clock is not two integers
    gives no value.
   */
  lemma MalformedFails(s: string)
    ensures |Split(s, ", ")| != 2 ==> ConvertStrToDt(s) == Failed(Structure)
    ensures var sections := Split(s, ", ");
      |sections| == 2 ==>
        && (|SplitWs(sections[0])| != 3 ==> ConvertStrToDt(s) == Failed(Structure))
        && (|SplitWs(sections[1])| != 2 ==> ConvertStrToDt(s).Failed?)
        && ((|SplitWs(sections[1])| == 2 && Lower(SplitWs(sections[1])[1]) !in {"am", "pm"})
              ==> ConvertStrToDt(s).Failed?)
        && ((|SplitWs(sections[1])| == 2 && !IsClock(SplitWs(sections[1])[0]))
              ==> ConvertStrToDt(s).Failed?)
  {
  }

  /** `int(f'20{t}')`: an integer exactly when `t` is all digits (so no sign), worth 20·10^|t| + t. */
  lemma YearToken(t: string)
    ensures ParseInt(Century + t) == if AllDigits(t) then Some(CenturyValue * Pow10(|t|) + DigitsValue(t)) else None
    ensures |t| == 2 && AllDigits(t) ==> ParseInt(Century + t) == Some(2000 + DigitsValue(t))
  {
    if AllDigits(t) {
      YearDigits(t);
      if |t| == 2 {
        TwoDigitYear(t);
      }
    } else {
      YearNonDigit(t);
    }
  }

  /** Two year digits after "20" give a year in this century. */
  lemma TwoDigitYear(t: string)
    requires |t| == 2 && AllDigits(t)
    ensures ParseInt(Century + t) == Some(2000 + DigitsValue(t))
  {
    YearDigits(t);
    TwoDigitCentury(|t|);
  }

  lemma TwoDigitCentury(n: nat)
    requires n == 2
    ensures CenturyValue * Pow10(n) == 2000
  {
    assert Pow10(1) == 10;
  }

  lemma YearDigits(t: string)
    requires AllDigits(t)
    ensures ParseInt(Century + t) == Some(CenturyValue * Pow10(|t|) + DigitsValue(t))
  {
    CenturyDigits();
    ParseIntPrefixed(Century, CenturyValue, t);
  }

  lemma CenturyDigits()
    ensures |Century| == 2 && Century[0] == '2' && AllDigits(Century) && DigitsValue(Century) == CenturyValue
  {
    assert Century[..1] == "2";
    assert "2"[..0] == "";
  }

  lemma YearNonDigit(t: string)
    requires !AllDigits(t)
    ensures ParseInt(Century + t) == None
  {
    CenturyDigits();
    var s := Century + t;
    var k :| 0 <= k < |t| && !IsDigit(t[k]);
    assert s[k + 2] == t[k];
    assert s[0] == '2';
  }

  /** A word without spaces or commas. */
  predicate IsToken(t: string) {
    IsWord(t) && ',' !in t
  }

  lemma JoinFree(parts: seq<string>, sep: string, c: char)
    requires |parts| >= 1 && c !in sep
    requires forall i :: 0 <= i < |parts| ==> c !in parts[i]
    ensures c !in Join(parts, sep)
  {
  }

  /** The text "<day> <month> <year>, <hour>:<minute> <marker>". */
  function Layout(day: string, month: string, year: string, hour: string, minute: string, marker: string): string {
    Join([day, month, year], " ") + ", " + Join([hour + ":" + minute, marker], " ")
  }

  /**
    `s` reads as the given tokens: it splits on ", " into two sections, the
    date section into the words `day`, `month`, `year` and the time section
    into the words "<hour>:<minute>" and `marker`.
   */
  predicate Reads(s: string, day: string, month: string, year: string, hour: string, minute: string, marker: string) {
    var sections := Split(s, ", ");
    && |sections| == 2
    && SplitWs(sections[0]) == [day, month, year]
    && SplitWs(sections[1]) == [hour + ":" + minute, marker]
    && ':' !in hour && ':' !in minute
  }

  /**
    On a string that reads as its tokens the stages fail at the first token
    that does not convert, in the order day, month, year, time; otherwise
    they yield the parsed day, the month index, 20·10^|year| + year, the
    hour, the minute and whether the marker is "pm".
   */
  lemma ReadsFields(s: string, day: string, month: string, year: string, hour: string, minute: string, marker: string)
    requires Reads(s, day, month, year, hour, minute, marker)
    ensures var r := ParseFields(s);
      && (ParseInt(day).None? ==> r == Failure(Day))
      && (ParseInt(day).Some? && MonthIndex(month).None? ==> r == Failure(Month))
      && (ParseInt(day).Some? && MonthIndex(month).Some? && !AllDigits(year) ==> r == Failure(Year))
      && (ParseInt(day).Some? && MonthIndex(month).Some? && AllDigits(year) ==>
            if Lower(marker) in {"am", "pm"} && ParseInt(hour).Some? && ParseInt(minute).Some? then
              r == Success(Fields(ParseInt(day).value, MonthIndex(month).value,
                                  CenturyValue * Pow10(|year|) + DigitsValue(year),
                                  ParseInt(hour).value, ParseInt(minute).value, Lower(marker) == "pm"))
            else r == Failure(Time))
  {
    YearToken(year);
    ClockTime(hour, minute, marker);
  }

  /** The text "<day> <month> <year>, <hour>:<minute> <marker>" reads as its tokens. */
  lemma LayoutReads(day: string, month: string, year: string, hour: string, minute: string, marker: string)
    requires IsToken(day) && IsToken(month) && IsToken(year) && IsToken(marker)
    requires IsToken(hour) && IsToken(minute) && ':' !in hour && ':' !in minute
    ensures Reads(Layout(day, month, year, hour, minute, marker), day, month, year, hour, minute, marker)
  {
    LayoutPieces(day, month, year, hour, minute, marker);
  }

  /** The time stage on the two words "<hour>:<minute>" and "<marker>". */
  lemma ClockTime(hour: string, minute: string, marker: string)
    requires ':' !in hour && ':' !in minute
    ensures ParseTime([hour + ":" + minute, marker])
         == if Lower(marker) in {"am", "pm"} && ParseInt(hour).Some? && ParseInt(minute).Some? then
              Some(Clock(ParseInt(hour).value, ParseInt(minute).value, Lower(marker) == "pm"))
            else None
  {
    SplitAround(hour, ":", minute);
  }

  /** The splits `convert_str_to_dt` makes take a laid-out string back to its tokens. */
  lemma LayoutPieces(day: string, month: string, year: string, hour: string, minute: string, marker: string)
    requires IsToken(day) && IsToken(month) && IsToken(year) && IsToken(marker)
    requires IsToken(hour) && IsToken(minute) && ':' !in hour && ':' !in minute
    ensures var date := Join([day, month, year], " ");
      var time := Join([hour + ":" + minute, marker], " ");
      && Split(Layout(day, month, year, hour, minute, marker), ", ") == [date, time]
      && SplitWs(date) == [day, month, year]
      && SplitWs(time) == [hour + ":" + minute, marker]
  {
    var date := Join([day, month, year], " ");
    var clock := hour + ":" + minute;
    var time := Join([clock, marker], " ");
    ClockToken(hour, minute);
    JoinFree([day, month, year], " ", ',');
    JoinFree([clock, marker], " ", ',');
    SplitAround(date, ", ", time);
    SplitWsJoin([day, month, year]);
    SplitWsJoin([clock, marker]);
  }

  lemma ClockToken(hour: string, minute: string)
    requires IsToken(hour) && IsToken(minute)
    ensures IsToken(hour + ":" + minute)
  {
    var clock := hour + ":" + minute;
    assert forall k :: 0 <= k < |clock| ==> clock[k] == ':' || clock[k] in hour || clock[k] in minute;
  }

  /**
    A string that reads as tokens which all convert: the day, hour and
    minute are integers, the month an abbreviation, the year digits, and the
    marker "am" or "pm" in any letter case.
   */
  predicate Readable(s: string, day: string, month: string, year: string, hour: string, minute: string, marker: string) {
    && Reads(s, day, month, year, hour, minute, marker)
    && ParseInt(day).Some? && MonthIndex(month).Some? && AllDigits(year)
    && ParseInt(hour).Some? && ParseInt(minute).Some? && Lower(marker) in {"am", "pm"}
  }

  /** On a readable string every stage succeeds, with the tokens' values. */
  lemma ReadsParses(s: string, day: string, month: string, year: string, hour: string, minute: string, marker: string)
    requires Readable(s, day, month, year, hour, minute, marker)
    ensures ParseFields(s) == Success(Fields(ParseInt(day).value, MonthIndex(month).value,
                                             CenturyValue * Pow10(|year|) + DigitsValue(year),
                                             ParseInt(hour).value, ParseInt(minute).value, Lower(marker) == "pm"))
  {
    ReadsFields(s, day, month, year, hour, minute, marker);
  }

  /**
    Once every stage succeeds, the constructor is given the month's 0-based
    index and the hour 12 more after "pm". The result is that datetime
    exactly when the constructor accepts those fields; otherwise it raises.
   */
  lemma ConvertParsed(s: string)
    requires ParseFields(s).Success?
    ensures var f := ParseFields(s).value;
      var dt := DateTime(f.year, f.monthIndex, f.day, if f.pm then f.hours + 12 else f.hours, f.minutes);
      && (ConvertStrToDt(s).Converted? <==> IsValid(dt))
      && (ConvertStrToDt(s).Converted? ==> ConvertStrToDt(s).dt == dt)
      && (!ConvertStrToDt(s).Converted? ==> ConvertStrToDt(s) == Raised)
  {
  }

  // ---------------------------------------------------------------------
  // The month and hour encodings, on every readable string
  // ---------------------------------------------------------------------

  /** Any date naming January raises: the constructor is given month 0. */
  lemma JanuaryRaises(s: string, day: string, month: string, year: string, hour: string, minute: string, marker: string)
    requires Readable(s, day, month, year, hour, minute, marker) && Lower(month) == "jan"
    ensures ConvertStrToDt(s) == Raised
  {
    assert MonthIndex(month) == Some(0) by {
      assert MonthNameToInt["jan"] == 0;
    }
    ReadsParses(s, day, month, year, hour, minute, marker);
    ConvertParsed(s);
  }

  /** Any other month converts, if at all, to the calendar month before the one named ("mar" to February). */
  lemma MonthOneEarly(s: string, day: string, month: string, year: string, hour: string, minute: string, marker: string)
    requires Readable(s, day, month, year, hour, minute, marker)
    ensures ConvertStrToDt(s).Converted? ==>
      1 <= ConvertStrToDt(s).dt.month < 12 && MonthNames[ConvertStrToDt(s).dt.month] == Lower(month)
  {
    ReadsParses(s, day, month, year, hour, minute, marker);
    ConvertParsed(s);
  }

  /** "31 Dec" always raises: the constructor is given November, which has 30 days. */
  lemma DecemberThirtyFirstRaises(s: string, day: string, month: string, year: string, hour: string, minute: string, marker: string)
    requires Readable(s, day, month, year, hour, minute, marker) && ParseInt(day) == Some(31) && Lower(month) == "dec"
    ensures ConvertStrToDt(s) == Raised
  {
    assert MonthIndex(month) == Some(11) by {
      assert MonthNameToInt["dec"] == 11;
    }
    ReadsParses(s, day, month, year, hour, minute, marker);
    ConvertParsed(s);
  }

  /** "11:59 pm" is hour 23: "pm" adds 12 to the hour as written. */
  lemma ElevenFiftyNinePm(s: string, day: string, month: string, year: string, hour: string, minute: string, marker: string)
    requires Readable(s, day, month, year, hour, minute, marker)
    requires ParseInt(hour) == Some(11) && ParseInt(minute) == Some(59) && Lower(marker) == "pm"
    ensures ConvertStrToDt(s).Converted? ==> ConvertStrToDt(s).dt.hour == 23 && ConvertStrToDt(s).dt.minute == 59
  {
    ReadsParses(s, day, month, year, hour, minute, marker);
    ConvertParsed(s);
  }

  /** "12 pm" always raises: the unconditional +12 makes the hour 24. */
  lemma NoonRaises(s: string, day: string, month: string, year: string, hour: string, minute: string, marker: string)
    requires Readable(s, day, month, year, hour, minute, marker) && ParseInt(hour) == Some(12) && Lower(marker) == "pm"
    ensures ConvertStrToDt(s) == Raised
  {
    ReadsParses(s, day, month, year, hour, minute, marker);
    ConvertParsed(s);
  }

  /** "12 am" is never moved to hour 0: it converts, if at all, to half a day later, hour 12. */
  lemma MidnightBecomesNoon(s: string, day: string, month: string, year: string, hour: string, minute: string, marker: string)
    requires Readable(s, day, month, year, hour, minute, marker) && ParseInt(hour) == Some(12) && Lower(marker) == "am"
    ensures ConvertStrToDt(s).Converted? ==> ConvertStrToDt(s).dt.hour == 12
  {
    ReadsParses(s, day, month, year, hour, minute, marker);
    ConvertParsed(s);
  }

  // ---------------------------------------------------------------------
  // The evidently intended encodings
  // ---------------------------------------------------------------------

  /** The hour on a 24-hour clock for a 12-hour clock reading. */
  function To24Hour(hours: int, pm: bool): int {
    (if hours == 12 then 0 else hours) + (if pm then 12 else 0)
  }

  /** The parser with a 1-based month and the usual 12-hour clock. */
  function ConvertStrToDtIntended(s: string): (r: Conversion)
    ensures r.Converted? ==> IsValid(r.dt)
    ensures r.Failed? <==> ParseFields(s).Failure?
  {
    match ParseFields(s)
    case Failure(stage) => Failed(stage)
    case Success(f) =>
      NewDateTime(DateTime(f.year, f.monthIndex + 1, f.day, To24Hour(f.hours, f.pm), f.minutes))
  }

  /** The intended parser converts every parse whose fields name a real date and a 12-hour reading. */
  lemma IntendedConverts(s: string, f: Fields)
    requires ParseFields(s) == Success(f)
    requires 0 <= f.monthIndex < 12 && 1 <= f.year <= 9999
    requires 1 <= f.day <= DaysInMonth(f.year, f.monthIndex + 1)
    requires 1 <= f.hours <= 12 && 0 <= f.minutes <= 59
    ensures ConvertStrToDtIntended(s)
         == Converted(DateTime(f.year, f.monthIndex + 1, f.day, To24Hour(f.hours, f.pm), f.minutes))
  {
    DialHour(f.hours, f.pm);
  }

  /** A 12-hour reading on the 24-hour clock: same place on the dial, on the side of noon the marker says. */
  lemma DialHour(hour: int, pm: bool)
    requires 1 <= hour <= 12
    ensures var h := To24Hour(hour, pm);
      0 <= h <= 23 && h % 12 == hour % 12 && (h >= 12 <==> pm)
  {
    if hour == 12 {
      assert To24Hour(hour, pm) == if pm then 12 else 0;
    }
  }
}
