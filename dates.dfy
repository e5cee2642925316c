/**
 * The date helpers of the toolkit over the calendar model: natural-language
 * dates, display formats, period ranges, business days, weekends and month
 * names. Every date is an instant (see `Calendar`); the current time is
 * always passed in as the reference instant.
 */
module Dates {
  import opened Wrappers
  import opened Strings
  import opened Calendar

  // ---------------------------------------------------------------------
  // parse_natural_date

  /** The literal phrases, in the order they are tried, with the days each adds to the reference. */
  const Phrases: seq<(string, int)> :=
    [("today", 0), ("yesterday", -1), ("tomorrow", 1), ("day before yesterday", -2), ("day after tomorrow", 2)]

  /** The first phrase of `table` from position `i` on that occurs in `text`. */
  function FirstPhrase(table: seq<(string, int)>, text: string, i: nat): (r: Option<nat>)
    requires i <= |table|
    ensures r.Some? ==> && i <= r.value < |table| && Contains(text, table[r.value].0)
                        && forall j :: i <= j < r.value ==> !Contains(text, table[j].0)
    ensures r.None? ==> forall j :: i <= j < |table| ==> !Contains(text, table[j].0)
    decreases |table| - i
  {
    if i == |table| then None
    else if Contains(text, table[i].0) then Some(i)
    else FirstPhrase(table, text, i + 1)
  }

  datatype Unit = Day | Week | Month

  /** `timedelta(days=n)`, `timedelta(weeks=n)`, and 30 days for a month. */
  function UnitDays(u: Unit): int {
    match u
    case Day => 1
    case Week => 7
    case Month => 30
  }

  /** The unit word `(day|week|month)` at the front of `u`. */
  function UnitAt(u: string): Option<Unit> {
    if StartsWith(u, "day") then Some(Day)
    else if StartsWith(u, "week") then Some(Week)
    else if StartsWith(u, "month") then Some(Month)
    else None
  }

  /**
   * The regular expression `keyword (\d+) (day|week|month)s?` matched at
   * position `i`: the keyword, the whole run of digits, one space and a
   * unit word. The optional plural `s` does not change the match.
   */
  function MatchAt(text: string, keyword: string, i: nat): Option<(nat, Unit)> {
    if !OccursAt(text, keyword, i) then None
    else
      var s := text[i + |keyword|..];
      var k := DigitCount(s);
      if k == 0 || k == |s| || s[k] != ' ' then None
      else match UnitAt(s[k + 1..])
        case Some(u) => Some((DigitsValue(s[..k]), u))
        case None => None
  }

  /** Where a search matched, the number it read and the unit. */
  datatype Found = Found(at: nat, number: nat, unit: Unit)

  /** `re.search`: the leftmost match at position `i` or later. */
  function Search(text: string, keyword: string, i: nat): (r: Option<Found>)
    requires i <= |text| + 1
    ensures r.Some? ==> && i <= r.value.at <= |text|
                        && MatchAt(text, keyword, r.value.at) == Some((r.value.number, r.value.unit))
                        && forall j :: i <= j < r.value.at ==> MatchAt(text, keyword, j).None?
    ensures r.None? ==> forall j :: i <= j <= |text| ==> MatchAt(text, keyword, j).None?
    decreases |text| + 1 - i
  {
    if i > |text| then None
    else match MatchAt(text, keyword, i)
      case Some((n, u)) => Some(Found(i, n, u))
      case None => Search(text, keyword, i + 1)
  }

  /** The days a relative phrase moves by. */
  function FoundDays(f: Found): int {
    UnitDays(f.unit) * f.number
  }

  /** `date_text.lower().strip()`. */
  function NormalizeText(dateText: string): string {
    Trim(Lower(dateText))
  }

  /**
   * What `parse_natural_date` does once no literal phrase occurs: "last N
   * unit" and else "next N unit", else the general parser, whose failure
   * gives the reference. `parse` stands for `dateutil.parser.parse`, `None`
   * for the exception it raises.
   */
  function RelativeOrParsed(text: string, reference: int, parse: string -> Option<int>): int {
    match Search(text, "last ", 0)
    case Some(f) => reference - FoundDays(f) * MicrosPerDay
    case None =>
      match Search(text, "next ", 0)
      case Some(f) => reference + FoundDays(f) * MicrosPerDay
      case None =>
        match parse(text)
        case Some(t) => t
        case None => reference
  }

  /** The instant `parse_natural_date` gives. */
  function NaturalDate(dateText: string, reference: int, parse: string -> Option<int>): int {
    var text := NormalizeText(dateText);
    match FirstPhrase(Phrases, text, 0)
    case Some(j) => reference + Phrases[j].1 * MicrosPerDay
    case None => RelativeOrParsed(text, reference, parse)
  }

  /** `parse_natural_date`: the phrase table is tried in order and the first phrase found wins. */
  method ParseNaturalDate(dateText: string, reference: int, parse: string -> Option<int>) returns (r: int)
    ensures r == NaturalDate(dateText, reference, parse)
  {
    var text := NormalizeText(dateText);
    for i := 0 to |Phrases|
      invariant FirstPhrase(Phrases, text, 0) == FirstPhrase(Phrases, text, i)
    {
      if Contains(text, Phrases[i].0) {
        return reference + Phrases[i].1 * MicrosPerDay;
      }
    }
    r := RelativeOrParsed(text, reference, parse);
  }

  /** A literal phrase found earlier in the table decides, whatever else the text holds. */
  lemma PhraseDecides(dateText: string, reference: int, parse: string -> Option<int>, j: nat)
    requires j < |Phrases| && Contains(NormalizeText(dateText), Phrases[j].0)
    requires forall k :: 0 <= k < j ==> !Contains(NormalizeText(dateText), Phrases[k].0)
    ensures NaturalDate(dateText, reference, parse) == reference + Phrases[j].1 * MicrosPerDay
  {
  }

  /** The longer phrases hold a shorter one tried before them: "yesterday" and "tomorrow". */
  lemma LongPhrasesHoldShort()
    ensures Contains(Phrases[3].0, Phrases[1].0) && Contains(Phrases[4].0, Phrases[2].0)
  {
    assert OccursAt(Phrases[3].0, Phrases[1].0, 11);
    assert OccursAt(Phrases[4].0, Phrases[2].0, 10);
  }

  /** Neither "day before yesterday" nor "day after tomorrow" is ever the phrase that decides. */
  lemma {:induction false} LongPhrasesNeverDecide(text: string)
    ensures FirstPhrase(Phrases, text, 0) != Some(3) && FirstPhrase(Phrases, text, 0) != Some(4)
  {
    LongPhrasesHoldShort();
    if Contains(text, Phrases[3].0) {
      ContainsTransitive(text, Phrases[3].0, Phrases[1].0);
    }
    if Contains(text, Phrases[4].0) {
      ContainsTransitive(text, Phrases[4].0, Phrases[2].0);
    }
  }

  /** A text holding "day before yesterday" but not "today" gives the day before the reference, not two days before. */
  lemma {:induction false} DayBeforeYesterday(dateText: string, reference: int, parse: string -> Option<int>)
    requires Contains(NormalizeText(dateText), "day before yesterday")
    requires !Contains(NormalizeText(dateText), "today")
    ensures NaturalDate(dateText, reference, parse) == reference - MicrosPerDay
  {
    LongPhrasesHoldShort();
    ContainsTransitive(NormalizeText(dateText), Phrases[3].0, Phrases[1].0);
    PhraseDecides(dateText, reference, parse, 1);
  }

  /** A text holding "day after tomorrow" but neither "today" nor "yesterday" gives the day after the reference. */
  lemma {:induction false} DayAfterTomorrow(dateText: string, reference: int, parse: string -> Option<int>)
    requires Contains(NormalizeText(dateText), "day after tomorrow")
    requires !Contains(NormalizeText(dateText), "today") && !Contains(NormalizeText(dateText), "yesterday")
    ensures NaturalDate(dateText, reference, parse) == reference + MicrosPerDay
  {
    LongPhrasesHoldShort();
    ContainsTransitive(NormalizeText(dateText), Phrases[4].0, Phrases[2].0);
    PhraseDecides(dateText, reference, parse, 2);
  }

  /** The phrase table with the two longer phrases tried before the shorter ones they contain. */
  const LongestFirst: seq<(string, int)> :=
    [("day before yesterday", -2), ("day after tomorrow", 2), ("today", 0), ("yesterday", -1), ("tomorrow", 1)]

  /** `parse_natural_date` with the phrases tried longest first. */
  function NaturalDateLongestFirst(dateText: string, reference: int, parse: string -> Option<int>): int {
    var text := NormalizeText(dateText);
    match FirstPhrase(LongestFirst, text, 0)
    case Some(j) => reference + LongestFirst[j].1 * MicrosPerDay
    case None => RelativeOrParsed(text, reference, parse)
  }

  /** Tried longest first, "day before yesterday" gives two days before the reference. */
  lemma BeforeYesterdayLongestFirst(dateText: string, reference: int, parse: string -> Option<int>)
    requires Contains(NormalizeText(dateText), "day before yesterday")
    ensures NaturalDateLongestFirst(dateText, reference, parse) == reference - 2 * MicrosPerDay
  {
    assert FirstPhrase(LongestFirst, NormalizeText(dateText), 0) == Some(0);
  }

  /** Tried longest first, "day after tomorrow" gives two days after the reference unless "day before yesterday" is there too. */
  lemma AfterTomorrowLongestFirst(dateText: string, reference: int, parse: string -> Option<int>)
    requires Contains(NormalizeText(dateText), "day after tomorrow")
    requires !Contains(NormalizeText(dateText), "day before yesterday")
    ensures NaturalDateLongestFirst(dateText, reference, parse) == reference + 2 * MicrosPerDay
  {
    assert FirstPhrase(LongestFirst, NormalizeText(dateText), 1) == Some(1);
  }

  /** Every phrase of the longest-first table can decide: the text that is just that phrase picks it. */
  lemma {:induction false} LongestFirstEveryPhraseDecides(j: nat)
    requires j < |LongestFirst|
    ensures FirstPhrase(LongestFirst, LongestFirst[j].0, 0) == Some(j)
  {
    ContainsSelf(LongestFirst[j].0);
    forall k | 0 <= k < j ensures !Contains(LongestFirst[j].0, LongestFirst[k].0) {
      if k < 2 {
        LongerNotContained(LongestFirst[j].0, LongestFirst[k].0);
      } else {
        NoTodayIn(LongestFirst[j].0);
      }
    }
  }

  /** "today" occurs in neither "yesterday" nor "tomorrow". */
  lemma NoTodayIn(text: string)
    requires text == "yesterday" || text == "tomorrow"
    ensures !Contains(text, "today")
  {
    forall i: nat | i <= |text| ensures !OccursAt(text, "today", i) {
      if i + 5 <= |text| {
        FiveChars(text, i);
      }
    }
  }

  lemma FiveChars(text: string, i: nat)
    requires i + 5 <= |text|
    ensures text[i..i + 5] == [text[i], text[i + 1], text[i + 2], text[i + 3], text[i + 4]]
  {
  }

  /** A "last" phrase wins over a "next" phrase, and the number counts days, weeks of 7 days or months of 30 days back. */
  lemma LastBeforeNext(text: string, reference: int, parse: string -> Option<int>, n: nat, u: Unit)
    requires Search(text, "last ", 0).Some?
    requires Search(text, "last ", 0).value.number == n && Search(text, "last ", 0).value.unit == u
    ensures RelativeOrParsed(text, reference, parse) == reference - UnitDays(u) * n * MicrosPerDay
  {
  }

  /** The singular word of each unit. */
  function UnitWord(u: Unit): string {
    match u
    case Day => "day"
    case Week => "week"
    case Month => "month"
  }

  /** Each unit word, followed by anything (the plural `s` among others), is read as that unit. */
  lemma UnitAtWord(u: Unit, rest: string)
    ensures UnitAt(UnitWord(u) + rest) == Some(u)
  {
    var t := UnitWord(u) + rest;
    assert t[..|UnitWord(u)|] == UnitWord(u);
    assert t[0] == UnitWord(u)[0];
  }

  /** Digits, one space and a word split where `MatchAt` splits them. */
  lemma DigitsSpaceParts(d: string, w: string)
    requires AllDigits(d)
    ensures var s := d + " " + w;
            && DigitCount(s) == |d| < |s| && s[|d|] == ' '
            && s[..|d|] == d && s[|d| + 1..] == w
  {
    var s := d + " " + w;
    assert s == d + (" " + w);
    DigitCountOfDigits(d, " " + w);
    assert s[..|d|] == d;
    assert s[|d| + 1..] == w;
  }

  /**
   * The keyword, `str(n)`, one space and a unit word, singular or plural,
   * match at the front with number `n` and that unit.
   */
  lemma MatchUnitText(keyword: string, n: nat, u: Unit, rest: string)
    ensures MatchAt(keyword + NatText(n) + " " + UnitWord(u) + rest, keyword, 0) == Some((n, u))
  {
    var s := NatText(n) + " " + UnitWord(u) + rest;
    var text := keyword + NatText(n) + " " + UnitWord(u) + rest;
    assert text == keyword + s;
    assert text[0..|keyword|] == keyword;
    assert text[|keyword|..] == s;
    assert s == NatText(n) + " " + (UnitWord(u) + rest);
    DigitsSpaceParts(NatText(n), UnitWord(u) + rest);
    NatTextValue(n);
    UnitAtWord(u, rest);
  }

  /** A search finds nothing in a text that does not contain the keyword. */
  lemma SearchNeedsKeyword(text: string, keyword: string, i: nat)
    requires i <= |text| + 1
    ensures Search(text, keyword, i).Some? ==> Contains(text, keyword)
  {
    if Search(text, keyword, i).Some? {
      var at := Search(text, keyword, i).value.at;
      assert OccursAt(text, keyword, at);
    }
  }

  /** "last N unit" with no literal phrase in the text gives N days, weeks or 30-day months before the reference. */
  lemma NaturalDateLast(dateText: string, reference: int, parse: string -> Option<int>, n: nat, u: Unit, rest: string)
    requires NormalizeText(dateText) == "last " + NatText(n) + " " + UnitWord(u) + rest
    requires forall j :: 0 <= j < |Phrases| ==> !Contains(NormalizeText(dateText), Phrases[j].0)
    ensures NaturalDate(dateText, reference, parse) == reference - UnitDays(u) * n * MicrosPerDay
  {
    var text := NormalizeText(dateText);
    MatchUnitText("last ", n, u, rest);
    assert Search(text, "last ", 0) == Some(Found(0, n, u));
    assert FirstPhrase(Phrases, text, 0).None?;
  }

  /** "next N unit" with no literal phrase and no "last " in the text gives N days, weeks or 30-day months after the reference. */
  lemma NaturalDateNext(dateText: string, reference: int, parse: string -> Option<int>, n: nat, u: Unit, rest: string)
    requires NormalizeText(dateText) == "next " + NatText(n) + " " + UnitWord(u) + rest
    requires forall j :: 0 <= j < |Phrases| ==> !Contains(NormalizeText(dateText), Phrases[j].0)
    requires !Contains(NormalizeText(dateText), "last ")
    ensures NaturalDate(dateText, reference, parse) == reference + UnitDays(u) * n * MicrosPerDay
  {
    var text := NormalizeText(dateText);
    SearchNeedsKeyword(text, "last ", 0);
    MatchUnitText("next ", n, u, rest);
    assert Search(text, "next ", 0) == Some(Found(0, n, u));
    assert FirstPhrase(Phrases, text, 0).None?;
  }

  /** A text with no phrase and no "last"/"next" match is the parser's, or else the reference. */
  lemma ParserFallback(text: string, reference: int, parse: string -> Option<int>)
    requires Search(text, "last ", 0).None? && Search(text, "next ", 0).None?
    ensures RelativeOrParsed(text, reference, parse) == parse(text).GetOr(reference)
  {
  }

  // ---------------------------------------------------------------------
  // format_date_display

  /** The `strftime` pattern of each display style; an unknown style uses the standard one. */
  function FormatPattern(formatType: string): string {
    if formatType == "standard" then "%Y-%m-%d"
    else if formatType == "short" then "%m/%d/%y"
    else if formatType == "long" then "%B %d, %Y"
    else if formatType == "iso" then "%Y-%m-%dT%H:%M:%S"
    else if formatType == "display" then "%d %b %Y"
    else if formatType == "time" then "%H:%M:%S"
    else "%Y-%m-%d"
  }

  /** `%Y`: the year with at least four digits. */
  function YearText(y: int): string {
    if y < 0 then "-" + ZeroPad(-y, 4) else ZeroPad(y, 4)
  }

  /** The text of one `strftime` directive `%c` for instant `t`, in the C locale. */
  function Directive(t: int, c: char): string {
    var dt := DateOf(t);
    if c == 'Y' then YearText(dt.year)
    else if c == 'y' then ZeroPad(dt.year % 100, 2)
    else if c == 'm' then ZeroPad(dt.month, 2)
    else if c == 'd' then ZeroPad(dt.day, 2)
    else if c == 'B' then MonthNames[dt.month - 1]
    else if c == 'b' then MonthNames[dt.month - 1][..3]
    else if c == 'H' then ZeroPad(Hour(t), 2)
    else if c == 'M' then ZeroPad(Minute(t), 2)
    else if c == 'S' then ZeroPad(Second(t), 2)
    else if c == '%' then "%"
    else ['%', c]
  }

  /** `strftime`: directives are replaced, every other character is copied. */
  function Strftime(t: int, fmt: string): string
    decreases |fmt|
  {
    if fmt == [] then ""
    else if fmt[0] == '%' && |fmt| >= 2 then Directive(t, fmt[1]) + Strftime(t, fmt[2..])
    else [fmt[0]] + Strftime(t, fmt[1..])
  }

  /** `format_date_display`. */
  function FormatDateDisplay(t: int, formatType: string): string {
    Strftime(t, FormatPattern(formatType))
  }

  /** Any style other than the six known ones formats exactly like "standard". */
  lemma UnknownStyleIsStandard(t: int, formatType: string)
    requires formatType !in {"standard", "short", "long", "iso", "display", "time"}
    ensures FormatDateDisplay(t, formatType) == FormatDateDisplay(t, "standard")
  {
  }

  lemma StrftimeDirective(t: int, c: char, rest: string)
    ensures Strftime(t, ['%', c] + rest) == Directive(t, c) + Strftime(t, rest)
  {
    assert (['%', c] + rest)[2..] == rest;
  }

  lemma StrftimeChar(t: int, c: char, rest: string)
    requires c != '%'
    ensures Strftime(t, [c] + rest) == [c] + Strftime(t, rest)
  {
    assert ([c] + rest)[1..] == rest;
  }

  /** The standard style is the zero-padded year, month and day joined by dashes. */
  lemma StandardText(t: int)
    ensures var dt := DateOf(t);
            FormatDateDisplay(t, "standard") == YearText(dt.year) + "-" + ZeroPad(dt.month, 2) + "-" + ZeroPad(dt.day, 2)
  {
    StandardPattern();
    StandardDirectives(t);
    DateDirectives(t);
  }

  lemma StandardDirectives(t: int)
    ensures Strftime(t, ['%', 'Y'] + ("-" + (['%', 'm'] + ("-" + ['%', 'd']))))
         == Directive(t, 'Y') + ("-" + (Directive(t, 'm') + ("-" + Directive(t, 'd'))))
  {
    StrftimeDirective(t, 'd', "");
    assert Strftime(t, "") == "";
    StrftimeChar(t, '-', ['%', 'd']);
    StrftimeDirective(t, 'm', "-" + ['%', 'd']);
    StrftimeChar(t, '-', ['%', 'm'] + ("-" + ['%', 'd']));
    StrftimeDirective(t, 'Y', "-" + (['%', 'm'] + ("-" + ['%', 'd'])));
  }

  lemma StandardPattern()
    ensures FormatPattern("standard") == ['%', 'Y'] + ("-" + (['%', 'm'] + ("-" + ['%', 'd'])))
  {
  }

  lemma DateDirectives(t: int)
    ensures Directive(t, 'Y') == YearText(DateOf(t).year)
    ensures Directive(t, 'm') == ZeroPad(DateOf(t).month, 2)
    ensures Directive(t, 'd') == ZeroPad(DateOf(t).day, 2)
  {
  }

  /** Reads a `YYYY-MM-DD` text back into its date fields. */
  function ParseDateText(s: string): Option<Date> {
    if |s| == 10 && s[4] == '-' && s[7] == '-' && AllDigits(s[..4]) && AllDigits(s[5..7]) && AllDigits(s[8..]) then
      Some(Date(DigitsValue(s[..4]), DigitsValue(s[5..7]), DigitsValue(s[8..])))
    else None
  }

  /** Within `datetime`'s years, the standard text reads back as the instant's date. */
  lemma StandardRoundTrip(t: int)
    requires 1 <= DateOf(t).year <= 9999
    ensures ParseDateText(FormatDateDisplay(t, "standard")) == Some(DateOf(t))
  {
    var dt := DateOf(t);
    StandardText(t);
    assert Pow10(4) == 10000 && Pow10(2) == 100;
    ZeroPadValue(dt.year, 4);
    ZeroPadValue(dt.month, 2);
    ZeroPadValue(dt.day, 2);
    var y := ZeroPad(dt.year, 4);
    var m := ZeroPad(dt.month, 2);
    var d := ZeroPad(dt.day, 2);
    var s := y + "-" + m + "-" + d;
    assert s[..4] == y && s[5..7] == m && s[8..] == d;
  }

  // ---------------------------------------------------------------------
  // get_date_range

  /** Midnight at the start of a date. */
  function Midnight(dt: Date): int
    requires ValidDate(dt)
  {
    MakeInstant(dt, 0, 0, 0, 0)
  }

  /** The last microsecond of a date, 23:59:59.999999. */
  function LastMicro(dt: Date): int
    requires ValidDate(dt)
  {
    MakeInstant(dt, 23, 59, 59, 999999)
  }

  lemma MidnightDate(dt: Date)
    requires ValidDate(dt)
    ensures DateOf(Midnight(dt)) == dt && TimeOfDay(Midnight(dt)) == 0
  {
    MakeInstantDate(dt, 0, 0, 0, 0);
  }

  lemma LastMicroDate(dt: Date)
    requires ValidDate(dt)
    ensures DateOf(LastMicro(dt)) == dt && TimeOfDay(LastMicro(dt)) == MicrosPerDay - 1
  {
    MakeInstantDate(dt, 23, 59, 59, 999999);
  }

  /** The seven days from midnight of day number `monday`. */
  function WeekFrom(monday: int): (int, int) {
    var start := StartOfDay(monday);
    (start, start + 7 * MicrosPerDay - 1)
  }

  /** The reference's own day. */
  function DayRange(reference: int): (int, int) {
    var dt := DateOf(reference);
    (Midnight(dt), LastMicro(dt))
  }

  /** The reference's calendar month. */
  function MonthRangeOf(reference: int): (int, int) {
    var dt := DateOf(reference);
    (Midnight(Date(dt.year, dt.month, 1)), Midnight(NextMonthStart(dt.year, dt.month)) - 1)
  }

  /** The reference's calendar year. */
  function YearRangeOf(reference: int): (int, int) {
    var dt := DateOf(reference);
    (Midnight(Date(dt.year, 1, 1)), LastMicro(Date(dt.year, 12, 31)))
  }

  /** The month before the reference's, up to the reference's month start. */
  function LastMonthRangeOf(reference: int): (int, int) {
    var dt := DateOf(reference);
    (Midnight(PreviousMonthStart(dt.year, dt.month)), Midnight(Date(dt.year, dt.month, 1)) - 1)
  }

  /** `get_date_range`: the first and last microsecond of a period around the reference. */
  function GetDateRange(period: string, reference: int): (int, int) {
    var day := DayOf(reference);
    if period == "today" then DayRange(reference)
    else if period == "week" then WeekFrom(day - Weekday(day))
    else if period == "month" then MonthRangeOf(reference)
    else if period == "year" then YearRangeOf(reference)
    else if period == "last_week" then WeekFrom(day - (Weekday(day) + 7))
    else if period == "last_month" then LastMonthRangeOf(reference)
    else DayRange(reference)
  }

  /** "today" runs from the reference's midnight to its last microsecond. */
  lemma TodayRange(reference: int)
    ensures var (start, end) := GetDateRange("today", reference);
            && start <= reference <= end
            && DateOf(start) == DateOf(reference) && TimeOfDay(start) == 0
            && DateOf(end) == DateOf(reference) && TimeOfDay(end) == MicrosPerDay - 1
  {
    InstantInDay(reference);
  }

  /** An unrecognised period is the "today" range. */
  lemma UnknownPeriodIsToday(period: string, reference: int)
    requires period !in {"today", "week", "month", "year", "last_week", "last_month"}
    ensures GetDateRange(period, reference) == GetDateRange("today", reference)
  {
  }

  /** "week" starts at midnight on the Monday on or before the reference and lasts seven days. */
  lemma WeekRange(reference: int)
    ensures var (start, end) := GetDateRange("week", reference);
            && Weekday(DayOf(start)) == 0 && TimeOfDay(start) == 0
            && start <= reference < start + 7 * MicrosPerDay
            && end == start + 7 * MicrosPerDay - 1
  {
    InstantInDay(reference);
  }

  /** "last_week" is the "week" range seven days earlier. */
  lemma LastWeekRange(reference: int)
    ensures var (start, end) := GetDateRange("week", reference);
            GetDateRange("last_week", reference) == (start - 7 * MicrosPerDay, end - 7 * MicrosPerDay)
  {
  }

  /** "month" runs from midnight of the 1st to the last microsecond of the month's last day. */
  lemma MonthRange(reference: int)
    ensures var dt := DateOf(reference);
            var (start, end) := GetDateRange("month", reference);
            && DateOf(start) == Date(dt.year, dt.month, 1) && TimeOfDay(start) == 0
            && DateOf(end) == Date(dt.year, dt.month, DaysInMonth(dt.year, dt.month))
            && TimeOfDay(end) == MicrosPerDay - 1
            && start <= reference <= end
  {
    var dt := DateOf(reference);
    assert GetDateRange("month", reference) == MonthRangeOf(reference);
    MonthRangeFacts(reference);
    LastMicroDate(Date(dt.year, dt.month, DaysInMonth(dt.year, dt.month)));
  }

  lemma MonthRangeFacts(reference: int)
    ensures var dt := DateOf(reference);
            var (start, end) := MonthRangeOf(reference);
            && DateOf(start) == Date(dt.year, dt.month, 1) && TimeOfDay(start) == 0
            && end == LastMicro(Date(dt.year, dt.month, DaysInMonth(dt.year, dt.month)))
            && start <= reference <= end
  {
    var dt := DateOf(reference);
    NextMonthStartFollows(dt.year, dt.month);
    MidnightDate(Date(dt.year, dt.month, 1));
    InstantInDay(reference);
  }

  /** A February range ends on the 29th in a leap year such as 2024 and on the 28th otherwise. */
  lemma FebruaryRange(reference: int)
    requires DateOf(reference).month == 2
    ensures var y := DateOf(reference).year;
            DateOf(GetDateRange("month", reference).1) == Date(y, 2, if IsLeapYear(y) then 29 else 28)
    ensures DateOf(reference).year == 2024 ==> DateOf(GetDateRange("month", reference).1).day == 29
  {
    var dt := DateOf(reference);
    var end := GetDateRange("month", reference).1;
    MonthEnd(reference);
    assert DateOf(end) == Date(dt.year, 2, DaysInMonth(dt.year, 2));
    assert IsLeapYear(2024);
  }

  lemma MonthEnd(reference: int)
    ensures var dt := DateOf(reference);
            DateOf(GetDateRange("month", reference).1) == Date(dt.year, dt.month, DaysInMonth(dt.year, dt.month))
  {
    MonthRange(reference);
  }

  /** A December range ends just before midnight on January 1 of the next year. */
  lemma DecemberRange(reference: int)
    requires DateOf(reference).month == 12
    ensures GetDateRange("month", reference).1 + 1 == Midnight(Date(DateOf(reference).year + 1, 1, 1))
  {
    assert GetDateRange("month", reference) == MonthRangeOf(reference);
    DecemberEnd(reference);
  }

  lemma DecemberEnd(reference: int)
    requires DateOf(reference).month == 12
    ensures MonthRangeOf(reference).1 + 1 == Midnight(Date(DateOf(reference).year + 1, 1, 1))
  {
    var dt := DateOf(reference);
    assert NextMonthStart(dt.year, dt.month) == Date(dt.year + 1, 1, 1);
    assert MonthRangeOf(reference).1 == Midnight(NextMonthStart(dt.year, dt.month)) - 1;
  }

  /**
   * "last_month" starts at midnight on the 1st of the previous month
   * (January goes back to December of the year before) and ends just before
   * the "month" range starts, on the last day of the previous month.
   */
  lemma LastMonthRange(reference: int)
    ensures var dt := DateOf(reference);
            var p := PreviousMonthStart(dt.year, dt.month);
            var (start, end) := GetDateRange("last_month", reference);
            && DateOf(start) == p && TimeOfDay(start) == 0
            && end + 1 == GetDateRange("month", reference).0
            && DateOf(end) == Date(p.year, p.month, DaysInMonth(p.year, p.month))
            && TimeOfDay(end) == MicrosPerDay - 1
  {
    assert GetDateRange("last_month", reference) == LastMonthRangeOf(reference);
    assert GetDateRange("month", reference) == MonthRangeOf(reference);
    LastMonthRangeFacts(reference);
    var dt := DateOf(reference);
    var p := PreviousMonthStart(dt.year, dt.month);
    MidnightDate(p);
    LastMicroDate(Date(p.year, p.month, DaysInMonth(p.year, p.month)));
  }

  lemma LastMonthRangeFacts(reference: int)
    ensures var dt := DateOf(reference);
            var p := PreviousMonthStart(dt.year, dt.month);
            var (start, end) := LastMonthRangeOf(reference);
            && start == Midnight(p)
            && end + 1 == MonthRangeOf(reference).0
            && end == LastMicro(Date(p.year, p.month, DaysInMonth(p.year, p.month)))
  {
    var dt := DateOf(reference);
    var p := PreviousMonthStart(dt.year, dt.month);
    var last := Date(p.year, p.month, DaysInMonth(p.year, p.month));
    PreviousMonthInverse(dt.year, dt.month);
    NextMonthStartFollows(p.year, p.month);
    MidnightFollows(last, Date(dt.year, dt.month, 1));
  }

  /** Midnight of a date is one microsecond after the last microsecond of the date before. */
  lemma MidnightFollows(a: Date, b: Date)
    requires ValidDate(a) && ValidDate(b) && DayNumber(b) == DayNumber(a) + 1
    ensures Midnight(b) == LastMicro(a) + 1
  {
  }

  /** "year" runs from midnight on January 1 to the last microsecond of December 31, just before the next year. */
  lemma YearRange(reference: int)
    ensures var dt := DateOf(reference);
            var (start, end) := GetDateRange("year", reference);
            && DateOf(start) == Date(dt.year, 1, 1) && TimeOfDay(start) == 0
            && DateOf(end) == Date(dt.year, 12, 31) && TimeOfDay(end) == MicrosPerDay - 1
            && end + 1 == Midnight(Date(dt.year + 1, 1, 1))
            && start <= reference <= end
  {
    assert GetDateRange("year", reference) == YearRangeOf(reference);
    YearRangeFacts(reference);
  }

  lemma YearRangeFacts(reference: int)
    ensures var dt := DateOf(reference);
            var (start, end) := YearRangeOf(reference);
            && DateOf(start) == Date(dt.year, 1, 1) && TimeOfDay(start) == 0
            && DateOf(end) == Date(dt.year, 12, 31) && TimeOfDay(end) == MicrosPerDay - 1
            && end + 1 == Midnight(Date(dt.year + 1, 1, 1))
            && start <= reference <= end
  {
    var dt := DateOf(reference);
    YearBounds(reference);
    assert ValidDate(Date(dt.year, 12, 31));
    MidnightDate(Date(dt.year, 1, 1));
    LastMicroDate(Date(dt.year, 12, 31));
    assert YearRangeOf(reference).1 == LastMicro(Date(dt.year, 12, 31));
    assert YearRangeOf(reference).0 == Midnight(Date(dt.year, 1, 1));
  }

  lemma YearBounds(reference: int)
    ensures var dt := DateOf(reference);
            var (start, end) := YearRangeOf(reference);
            && end + 1 == Midnight(Date(dt.year + 1, 1, 1))
            && start <= reference <= end
  {
    var dt := DateOf(reference);
    NextMonthStartFollows(dt.year, 12);
    DayNumberBounds(dt);
    InstantInDay(reference);
    DaysBeforeYearStep(dt.year);
  }

  // ---------------------------------------------------------------------
  // calculate_business_days and is_weekend

  /** `is_weekend`: Saturday or Sunday. */
  predicate IsWeekend(t: int) {
    Weekday(DayOf(t)) >= 5
  }

  /** The days `start`, `start` + 1 day, ... up to `end` that are not weekend days. */
  function BusinessCount(start: int, end: int): (r: nat)
    decreases end - start
  {
    if start > end then 0
    else (if IsWeekend(start) then 0 else 1) + BusinessCount(start + MicrosPerDay, end)
  }

  /** `calculate_business_days`. */
  method CountBusinessDays(start: int, end: int) returns (count: nat)
    ensures count == BusinessCount(start, end)
  {
    count := 0;
    var current := start;
    while current <= end
      invariant count + BusinessCount(current, end) == BusinessCount(start, end)
      decreases end - current
    {
      if Weekday(DayOf(current)) < 5 {
        count := count + 1;
      }
      current := current + MicrosPerDay;
    }
  }

  /** There are no business days in an empty span. */
  lemma BusinessCountEmpty(start: int, end: int)
    requires start > end
    ensures BusinessCount(start, end) == 0
  {
  }

  /** Counting `n` days from `start` splits at any whole number `j` of days. */
  lemma {:induction false} BusinessCountSplit(start: int, j: nat, end: int)
    requires start + j * MicrosPerDay - 1 <= end
    ensures BusinessCount(start, end) == BusinessCount(start, start + j * MicrosPerDay - 1) + BusinessCount(start + j * MicrosPerDay, end)
    decreases j
  {
    if j > 0 {
      var next := start + MicrosPerDay;
      BusinessCountSplit(next, j - 1, end);
      assert next + (j - 1) * MicrosPerDay == start + j * MicrosPerDay;
      BusinessCountSplit(next, j - 1, start + j * MicrosPerDay - 1);
      assert BusinessCount(start + j * MicrosPerDay, start + j * MicrosPerDay - 1) == 0;
    }
  }

  /** 1 for a day number that falls Monday to Friday, 0 for a weekend day. */
  function Business(d: int): int {
    if Weekday(d) >= 5 then 0 else 1
  }

  /** Any seven consecutive day numbers hold five business days. */
  lemma WeekOfDays(d: int)
    ensures Business(d) + Business(d + 1) + Business(d + 2) + Business(d + 3)
          + Business(d + 4) + Business(d + 5) + Business(d + 6) == 5
  {
    WeekdayShift(d, 1);
    WeekdayShift(d, 2);
    WeekdayShift(d, 3);
    WeekdayShift(d, 4);
    WeekdayShift(d, 5);
    WeekdayShift(d, 6);
  }

  /** `k` days later, for `k` within a week, is `k` weekdays further round the week. */
  lemma WeekdayShift(d: int, k: int)
    requires 0 <= k < 7
    ensures Weekday(d + k) == (Weekday(d) + k) % 7
  {
    assert d == 7 * (d / 7) + d % 7;
    assert d + k == 7 * (d / 7) + (d % 7 + k);
  }

  /** Counting one day: the day itself, then the rest. */
  lemma BusinessCountStep(start: int, end: int)
    requires start <= end
    ensures BusinessCount(start, end) == Business(DayOf(start)) + BusinessCount(start + MicrosPerDay, end)
  {
  }

  /** Any seven consecutive days hold five business days. */
  lemma SevenDays(start: int)
    ensures BusinessCount(start, start + 7 * MicrosPerDay - 1) == 5
  {
    var d := DayOf(start);
    var e := start + 7 * MicrosPerDay - 1;
    var i := 0;
    while i < 7
      invariant 0 <= i <= 7
      invariant DayOf(start + i * MicrosPerDay) == d + i
      invariant BusinessCount(start, e) == PartialWeek(d, i) + BusinessCount(start + i * MicrosPerDay, e)
    {
      BusinessCountStep(start + i * MicrosPerDay, e);
      AddDays(start + i * MicrosPerDay, 1);
      i := i + 1;
    }
    assert BusinessCount(start + 7 * MicrosPerDay, e) == 0;
    PartialWeekSeven(d);
    WeekOfDays(d);
  }

  lemma PartialWeekSeven(d: int)
    ensures PartialWeek(d, 7) == Business(d) + Business(d + 1) + Business(d + 2) + Business(d + 3)
                               + Business(d + 4) + Business(d + 5) + Business(d + 6)
  {
    assert PartialWeek(d, 1) == Business(d);
    assert PartialWeek(d, 3) == PartialWeek(d, 1) + Business(d + 1) + Business(d + 2);
    assert PartialWeek(d, 5) == PartialWeek(d, 3) + Business(d + 3) + Business(d + 4);
    assert PartialWeek(d, 7) == PartialWeek(d, 5) + Business(d + 5) + Business(d + 6);
  }

  /** The business days among the first `i` of the day numbers from `d`. */
  function PartialWeek(d: int, i: int): int
    requires 0 <= i <= 7
  {
    if i == 0 then 0 else PartialWeek(d, i - 1) + Business(d + i - 1)
  }

  /** `n` whole weeks hold `5 * n` business days. */
  lemma {:induction false} FullWeeks(start: int, n: nat)
    ensures BusinessCount(start, start + 7 * n * MicrosPerDay - 1) == 5 * n
    decreases n
  {
    if n > 0 {
      var end := start + 7 * n * MicrosPerDay - 1;
      BusinessCountSplit(start, 7, end);
      SevenDays(start);
      FullWeeks(start + 7 * MicrosPerDay, n - 1);
      assert start + 7 * MicrosPerDay + 7 * (n - 1) * MicrosPerDay - 1 == end;
    }
  }

  // ---------------------------------------------------------------------
  // get_month_name

  /** `get_month_name`: the English name of months 1 to 12, otherwise "Invalid". */
  function GetMonthName(monthNum: int): string {
    if 1 <= monthNum <= 12 then MonthNames[monthNum - 1] else "Invalid"
  }

  /** The `%B` directive writes the month's name from the same table. */
  lemma LongMonthName(t: int)
    ensures Directive(t, 'B') == GetMonthName(DateOf(t).month)
  {
  }

  /** Only month numbers 1 to 12 have a name; every other number is "Invalid". */
  lemma MonthNameValid(monthNum: int)
    ensures GetMonthName(monthNum) != "Invalid" <==> 1 <= monthNum <= 12
  {
    if 1 <= monthNum <= 12 {
      assert |GetMonthName(monthNum)| != 7 || GetMonthName(monthNum)[0] != 'I';
    }
  }

  /** Different months have different names. */
  lemma MonthNameInjective(m: int, n: int)
    requires 1 <= m <= 12 && 1 <= n <= 12 && m != n
    ensures GetMonthName(m) != GetMonthName(n)
  {
  }
}
