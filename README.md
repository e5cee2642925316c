# Finance tracker utilities, modelled in Dafny

This project models the three helper modules of a personal finance tracker:

- **Input validation** (`utils/validation_utils.py`) covers amounts, descriptions, categories, e-mail addresses, free text, numeric ranges, file names and currency amounts. Each validator returns the source's outcome tuple: `Checked` for `(is_valid, value, error)` and `Verdict` for `(is_valid, error)`. Errors are an `Error` kind, and `Message` gives each kind its exact text.
- **Display formatting** (`utils/format_utils.py`) covers the income and expense prefix, truncation, durations, title casing, list display and phone numbers.
- **Date helpers** (`utils/date_utils.py`) cover natural-language dates, display formats, period ranges, business days, weekends and month names.

The modules are:

| file | module | what it holds |
|---|---|---|
| `wrappers.dfy` | `Wrappers` | `Option` |
| `strings.dfy` | `Strings` | Python's `str` built-ins on ASCII: `lower`, `strip`, `split`, `join`, `in`, `filter`, slices with negative bounds, `str(int)`, and zero padding |
| `numerals.dfy` | `Numerals` | the plain decimal numeral grammar that `float(str)` and `Decimal(str)` accept, with its exact value and exponent |
| `validation.dfy` | `Validation` | `validation_utils.py` |
| `format.dfy` | `Format` | `format_utils.py`, except the float formatters |
| `calendar.dfy` | `Calendar` | the proleptic Gregorian calendar of `datetime`, on integers |
| `dates.dfy` | `Dates` | `date_utils.py` |

How instants are modelled:

- A `datetime` is an integer count of microseconds since 0001-01-01T00:00:00, with no time zone.
- A `timedelta` is the same count added to it.
- `date.weekday()` is the day number modulo 7, where 0 is Monday.
- The current time is always passed in as the reference instant.

Some foreign functions become parameters:

- `format_currency` becomes a function parameter of `FormatTransactionAmount`.
- `dateutil.parser.parse` becomes a function parameter of `NaturalDate`. It returns `None` where the parser raises.
- The float text shown inside the range messages becomes a parameter of `Message`.

Three source loops are methods with loop invariants, each proved equal to a specification function:

- `capitalize_words` is `Format.CapitalizeWords`.
- `calculate_business_days` is `Dates.CountBusinessDays`.
- the phrase loop of `parse_natural_date` is `Dates.ParseNaturalDate`.

## Model

| member | source | states |
|---|---|---|
| `Strings.Lower` | utils/validation_utils.py:101 | `str.lower()` keeps the length and lower-cases each character |
| `Strings.Trim` | utils/validation_utils.py:54 | `str.strip()` gives a slice of the input with only whitespace cut off on either side, and that slice neither starts nor ends with whitespace |
| `Strings.TrimOfTrimmed` | utils/validation_utils.py:54 | stripping a string whose two ends are not whitespace changes nothing |
| `Strings.Collapse` | utils/validation_utils.py:63 | `re.sub(r'\s+', ' ', s)` never lengthens the text, is empty exactly when the text is, keeps a non-whitespace first character, and starts with ' ' when the text starts with whitespace |
| `Strings.CollapseIsCollapsed` | utils/validation_utils.py:63 | after collapsing, no whitespace character remains except single spaces between non-spaces |
| `Strings.CollapseOfCollapsed` | utils/validation_utils.py:63 | collapsing is idempotent: a collapsed text is its own collapse |
| `Strings.SplitOfCollapse` | utils/validation_utils.py:63 | collapsing whitespace runs keeps the text's words, in order |
| `Strings.JoinSplitOfCollapsed` | utils/validation_utils.py:63 | a collapsed text with no whitespace at either end is its own words joined by single spaces |
| `Strings.CollapseTrimIsJoin` | utils/validation_utils.py:54-63 | stripping and then collapsing a non-blank text gives its words joined by single spaces |
| `Strings.CollapsePrefix` | utils/validation_utils.py:139 | collapsing a prefix of a text gives a prefix of the collapsed text |
| `Strings.SplitGivesWords` | utils/format_utils.py:196 | every piece `str.split()` returns is non-empty and holds no whitespace |
| `Strings.SplitJoin` | utils/format_utils.py:196-205 | joining words with single spaces and splitting again gives the same words back |
| `Strings.SplitOfTrim` | utils/validation_utils.py:54 | stripping the ends keeps the text's words |
| `Strings.Filter` | utils/format_utils.py:278 | the filtered text is no longer than the input, and every character in it passes the filter |
| `Strings.FilterConcat` | utils/format_utils.py:278 | filtering distributes over concatenation |
| `Strings.SplitOfFilterTrim` | utils/validation_utils.py:133-136 | filtering a stripped text leaves the same words as filtering the whole text |
| `Strings.ContainsTransitive` | utils/date_utils.py:33 | a text holding `big` holds every substring of `big` |
| `Strings.NatTextValue` | utils/format_utils.py:168 | the digits that `str(n)` writes read back as `n` |
| `Strings.ZeroPadValue` | utils/date_utils.py:84 | zero padding a number below 10^w to width w gives exactly w digits, and they read back as the number |
| `Numerals.ParseNumeral` | utils/validation_utils.py:22 | whatever the grammar recognises is a well-formed numeral |
| `Numerals.ParseSound` | utils/validation_utils.py:22 | a recognised numeral renders back to exactly the input text |
| `Numerals.ParseRender` | utils/validation_utils.py:22 | every well-formed numeral is recognised from its own text, so parsing and rendering are inverse |
| `Numerals.ParseNumberRender` | utils/validation_utils.py:249 | `Decimal(str)`, which strips surrounding whitespace first, reads every rendered numeral back as itself |
| `Numerals.ParseNatText` | utils/validation_utils.py:22 | the text `str(k)` parses as a whole numeral worth `k` |
| `Validation.Round2` | utils/validation_utils.py:33 | `round(x, 2)` is a whole number of hundredths, lies within half a hundredth of x, and keeps x when x is already hundredths |
| `Validation.ValidateAmount` | utils/validation_utils.py:16-38 | empty after cleaning gives "cannot be empty"; unparseable gives "Invalid amount format"; not above zero gives "greater than zero"; above 999999999 gives "exceeds maximum"; otherwise the amount is accepted rounded to hundredths. Errors and value are mutually exclusive |
| `Validation.ExactAmountAccepted` | utils/validation_utils.py:24-35 | a positive number of at most 999999999 with at most two decimals is accepted unchanged |
| `Validation.WholeAmountTextAccepted` | utils/validation_utils.py:17-35 | the decimal text of a whole number from 1 to 999999999 is accepted as that number |
| `Validation.TextAmountAccepted` | utils/validation_utils.py:17-35 | a text whose cleaned form parses to an in-range number of hundredths is accepted as that number |
| `Validation.SymbolPointMakesFraction` | utils/validation_utils.py:19-22 | for a symbol ending in a point, like "Rs.", followed by a space and digits, the cleaning keeps that point, so the digits are read as a fraction |
| `Validation.SymbolPointMisreadsAmount` | utils/validation_utils.py:16-35 | "Rs. 500" is accepted as 0.5 |
| `Validation.SymbolAmountAccepted` | utils/validation_utils.py:17-22 | with the symbol removed first, "symbol k" is accepted as k for every whole k from 1 to 999999999 |
| `Validation.SymbolAmountExample` | utils/validation_utils.py:17-22 | with the symbol removed first, "Rs. 500" is accepted as 500 |
| `Validation.ValidateDescription` | utils/validation_utils.py:51-65 | blank gives "cannot be empty"; a stripped length under 3 gives "at least 3"; over 500 gives "cannot exceed 500". Acceptance holds exactly when the stripped length is 3 to 500. An accepted value is 3 to 500 characters, stripped and collapsed, and it is exactly the description's words joined by single spaces |
| `Validation.DescriptionCleanIsFixedPoint` | utils/validation_utils.py:54-65 | a cleaned description is accepted again, unchanged |
| `Validation.ValidateCategory` | utils/validation_utils.py:79-85 | valid exactly when the category is non-blank and one of the allowed ones; blank gives "must be selected", anything else not allowed gives the list of allowed ones |
| `Validation.ValidateEmail` | utils/validation_utils.py:98-112 | valid exactly when the address is non-blank, its stripped lower-case form matches the pattern, and that form is at most 254 long; each failure gets its own message, in the source's order |
| `Validation.AcceptedEmailShape` | utils/validation_utils.py:101-110 | an accepted address is at most 254 characters with exactly one '@'; the part after its last '.' is the top-level label |
| `Validation.SanitizeInput` | utils/validation_utils.py:126-141 | empty stays empty; a limit of at least zero bounds the length; no control character survives; whitespace runs are collapsed; when nothing is cut off (a limit of at least the input's length), the words of the result are the words of the input with its control characters dropped |
| `Validation.SanitizeKeepsFront` | utils/validation_utils.py:130-141 | a limit of at least zero only cuts off a tail: the result is a prefix of the result with no cut, because collapsing and stripping the front both keep prefixes |
| `Validation.SanitizedWords` | utils/validation_utils.py:133-141 | collapsing keeps the words of the kept text, and with a limit of at least the input's length the kept text has the input's words with control characters dropped |
| `Validation.ValidateNumericRange` | utils/validation_utils.py:156-168 | valid exactly when the value converts to a number within `[min, max]`; the failures give "Invalid numeric value", "at least min" and "cannot exceed max", in that order |
| `Validation.ValidateTextLength` | utils/validation_utils.py:183-194 | valid exactly when the stripped length lies within `[min, max]`; the minimum is checked first |
| `Validation.IsSafeFilename` | utils/validation_utils.py:207-223 | true exactly when the name is non-blank, has no "..", no '/' or '\\', none of `<>:"\|?*`, and is at most 255 long |
| `Validation.SafeNameStaysInDirectory` | utils/validation_utils.py:210-212 | a safe name appended to a directory path is that path's last component, and is never ".." |
| `Validation.ValidateCurrencyAmount` | utils/validation_utils.py:237-260 | blank gives "Amount is required"; otherwise, after the symbol and commas are removed, the text must be a numeral; not above zero, or more than two written decimals, is refused; otherwise its exact value is accepted |
| `Validation.StripSymbolSpace` | utils/validation_utils.py:241-243 | "symbol amount" with the symbol at the front loses exactly the symbol and the space |
| `Validation.DropComma` | utils/validation_utils.py:246 | removing the thousands comma of `a,b` gives `ab` |
| `Validation.TwoDecimalsAccepted` | utils/validation_utils.py:241-257 | "Rs. 1,234.56" is accepted as 1234.56 |
| `Validation.TrailingZeroCounts` | utils/validation_utils.py:254-255 | "1.500" is refused for having more than two decimal places, as `Decimal` keeps trailing zeros |
| `Format.FormatTransactionAmount` | utils/format_utils.py:126-133 | `format_transaction_amount`; its contract is carried by `Format.TransactionPrefix` and `Format.TransactionTypeCaseInsensitive` |
| `Format.TransactionPrefix` | utils/format_utils.py:126-133 | the text is "+ " and the currency text exactly for income, "- " and the currency text exactly for expense, and the currency text alone exactly otherwise |
| `Format.TransactionTypeCaseInsensitive` | utils/format_utils.py:128-130 | the type is compared without regard to case |
| `Format.TruncateText` | utils/format_utils.py:148-154 | empty gives empty; text within the limit is returned as is; longer text becomes a prefix of the text of length `max_length - len(suffix)`, with Python's negative-slice rule, followed by the suffix |
| `Format.TruncateExactLength` | utils/format_utils.py:151-154 | with room for the suffix, a truncated text is exactly `max_length` long |
| `Format.TruncateWithinLimit` | utils/format_utils.py:148-154 | with room for the suffix, the result never exceeds `max_length` |
| `Format.TruncateIdempotent` | utils/format_utils.py:148-154 | with room for the suffix, truncating twice is truncating once |
| `Format.FormatDuration` | utils/format_utils.py:167-176 | `format_duration`; its contract is carried by `Format.DurationParts`, `Format.DurationAccuracy` and `Format.FormatDurationRoundTrip` |
| `Format.DurationParts` | utils/format_utils.py:167-176 | below 60 the seconds are shown alone; below 3600 as minutes of 1 to 59 and seconds under 60 that add up to the input; otherwise as at least one hour and minutes under 60 |
| `Format.DurationAccuracy` | utils/format_utils.py:167-176 | below an hour the fields add up to the input exactly; from an hour on they fall short of it by less than a minute |
| `Format.ParseDurationText` | utils/format_utils.py:168-176 | each of the three duration texts reads back as the fields it was written from |
| `Format.FormatDurationRoundTrip` | utils/format_utils.py:167-176 | the text `format_duration` writes reads back as the split of its argument |
| `Format.Capitalize` | utils/format_utils.py:201 | `str.capitalize()` keeps the length and the text up to case; the first character is not a lower-case letter and no later character is upper-case |
| `Format.CapitalizeWords` | utils/format_utils.py:189-205 | the loop's result is the lower-cased text's words, each restyled by its position, joined by single spaces |
| `Format.TitleWordsFacts` | utils/format_utils.py:193-205 | there are as many words out as in; each is the input word up to case; the first word and every word not in the stop list are capitalised, and the others are kept lower-case |
| `Format.CapitalizeWordsSplit` | utils/format_utils.py:196-205 | splitting the result gives back exactly the restyled words |
| `Format.CapitalizeWordsLower` | utils/format_utils.py:196-205 | lower-casing the result gives the lower-cased input's words joined by single spaces |
| `Format.TitleExample` | utils/format_utils.py:193-205 | "the lord of the rings" becomes "The Lord of the Rings" |
| `Format.FormatListDisplay` | utils/format_utils.py:224-238 | `format_list_display`; its contract is carried by `Format.ListOfAtMostOne`, `Format.ListWithinLimit`, `Format.ListSameSeparators`, `Format.TwoItemsIgnoreLimit`, `Format.ListShowsEveryItem`, `Format.ListCountsHidden` and `Format.ListDisplayExample` |
| `Format.ListWithinLimit` | utils/format_utils.py:231-234 | two items, or any number from three up to `max_items`, give all but the last item joined by `separator` and in order, then `final_separator`, then the last item |
| `Format.ListSameSeparators` | utils/format_utils.py:229-234 | with `final_separator` equal to `separator`, a list of at most two items or within the limit is exactly its items joined by that separator |
| `Format.TwoItemsIgnoreLimit` | utils/format_utils.py:229-232 | two items are always shown in full, whatever the limit |
| `Format.ListShowsEveryItem` | utils/format_utils.py:229-234 | within the limit, and always for one or two items, every item occurs in the text |
| `Format.ListCountsHidden` | utils/format_utils.py:235-238 | past a limit of at least zero, the first `max_items` items are shown and the number printed plus the limit is the number of items |
| `Format.ListOfAtMostOne` | utils/format_utils.py:226-230 | no items give "", and a single item is shown by itself, whatever the limit and separators |
| `Format.ListDisplayExample` | utils/format_utils.py:224-238 | four items "a" to "d" with a limit of 3 and the default separators give "a, b, c and 1 more" |
| `Format.FormatPhoneNumber` | utils/format_utils.py:274-288 | `format_phone_number`; its contract is carried by `Format.PhoneGroups` and `Format.PhoneIdempotent` |
| `Format.PhoneGroups` | utils/format_utils.py:274-288 | a number with ten digits, or eleven with a leading 0, becomes the code, then five digits, then five digits. The digits of the result are the code's followed by those ten. Any other input comes back unchanged |
| `Format.PhoneIdempotent` | utils/format_utils.py:274-288 | formatting a formatted number changes nothing, for every country code |
| `Calendar.DaysInMonth` | utils/date_utils.py:120-121 | every month has 28 to 31 days |
| `Calendar.DaysBeforeYearStep` | utils/date_utils.py:124-125 | each year starts where the one before it ends, one year length (365 or 366 days) later |
| `Calendar.DateOfDay` | utils/date_utils.py:114 | the date reached by day arithmetic is a valid date whose day number is the one reached |
| `Calendar.DayNumberInjective` | utils/date_utils.py:114 | distinct valid dates have distinct day numbers |
| `Calendar.DateOfDayNumber` | utils/date_utils.py:114 | every valid date is the date of its own day number, so the two conversions are inverse |
| `Calendar.WeekdayNext` | utils/date_utils.py:163 | the next day is the next weekday, Sunday wrapping to Monday |
| `Calendar.NextMonthStartFollows` | utils/date_utils.py:120-121 | the month after a month starts on the day after its last day, December going to January of the next year |
| `Calendar.PreviousMonthInverse` | utils/date_utils.py:133-136 | the month after the previous month is the month itself |
| `Calendar.MakeInstant` | utils/date_utils.py:110-111 | `replace(hour=…, minute=…, second=…, microsecond=…)` gives an instant on that day whose fields read back as given |
| `Calendar.MakeInstantDate` | utils/date_utils.py:110-111 | the instant built on a date falls on that date |
| `Calendar.AddDays` | utils/date_utils.py:114 | adding whole days moves the day number by that many and keeps the time of day |
| `Dates.NaturalDate` | utils/date_utils.py:21-69 | `parse_natural_date`; its contract is carried by `Dates.ParseNaturalDate`, `Dates.PhraseDecides`, `Dates.LongPhrasesNeverDecide`, `Dates.NaturalDateLast`, `Dates.NaturalDateNext`, `Dates.LastBeforeNext` and `Dates.ParserFallback` |
| `Dates.FirstPhrase` | utils/date_utils.py:32-34 | the phrase found is the first in the table that occurs in the text; none found means none of them occurs |
| `Dates.ParseNaturalDate` | utils/date_utils.py:21-69 | the loop returns what `NaturalDate` specifies: the first phrase's offset, else a "last"/"next" match, else the parser, else the reference |
| `Dates.PhraseDecides` | utils/date_utils.py:32-34 | a phrase that occurs, with no earlier phrase occurring, decides the date, whatever else the text holds |
| `Dates.LongPhrasesNeverDecide` | utils/date_utils.py:24-34 | "day before yesterday" and "day after tomorrow" never decide, as each holds a shorter phrase tried earlier |
| `Dates.DayBeforeYesterday` | utils/date_utils.py:26-34 | a text holding "day before yesterday" but not "today" gives the reference minus one day |
| `Dates.DayAfterTomorrow` | utils/date_utils.py:27-34 | a text holding "day after tomorrow" but neither "today" nor "yesterday" gives the reference plus one day |
| `Dates.BeforeYesterdayLongestFirst` | utils/date_utils.py:24-34 | with the longer phrases tried first, "day before yesterday" gives the reference minus two days |
| `Dates.AfterTomorrowLongestFirst` | utils/date_utils.py:24-34 | with the longer phrases tried first, "day after tomorrow" gives the reference plus two days |
| `Dates.LongestFirstEveryPhraseDecides` | utils/date_utils.py:24-34 | in the longest-first table every phrase decides the text that is just that phrase |
| `Dates.Search` | utils/date_utils.py:37-38 | `re.search` finds the leftmost position where the pattern matches, with no match before it; no result means no match anywhere |
| `Dates.LastBeforeNext` | utils/date_utils.py:37-62 | a "last N unit" match wins over any "next" match, and moves back N days, 7N days or 30N days |
| `Dates.MatchUnitText` | utils/date_utils.py:37-40 | the keyword, `str(n)`, one space and a unit word, followed by anything (so singular and plural alike), match at the front and read as `n` and that unit |
| `Dates.SearchNeedsKeyword` | utils/date_utils.py:37-38 | `re.search` finds no match in a text that does not contain the keyword |
| `Dates.NaturalDateLast` | utils/date_utils.py:21-48 | a normalised text "last N unit…" holding no literal phrase gives the reference minus N days, 7N days or 30N days |
| `Dates.NaturalDateNext` | utils/date_utils.py:21-62 | a normalised text "next N unit…" holding no literal phrase and no "last " gives the reference plus N days, 7N days or 30N days |
| `Dates.ParserFallback` | utils/date_utils.py:64-69 | with no phrase and no "last"/"next" match, the parser's instant is returned, or the reference if it fails |
| `Dates.FormatDateDisplay` | utils/date_utils.py:83-92 | `format_date_display`; its contract is carried by `Dates.UnknownStyleIsStandard`, `Dates.StandardText` and `Dates.StandardRoundTrip` |
| `Dates.UnknownStyleIsStandard` | utils/date_utils.py:83-92 | any style other than the six known ones formats like "standard" |
| `Dates.StandardText` | utils/date_utils.py:84-92 | the standard style is the year, month and day, zero-padded and joined by dashes |
| `Dates.StandardRoundTrip` | utils/date_utils.py:84-92 | for years 1 to 9999, the standard text reads back as the instant's date |
| `Dates.GetDateRange` | utils/date_utils.py:109-145 | `get_date_range`; its contract is carried by the `Dates.…Range` lemmas below and `Dates.UnknownPeriodIsToday` |
| `Dates.TodayRange` | utils/date_utils.py:109-111 | "today" runs from the reference's midnight to its last microsecond, and holds the reference |
| `Dates.UnknownPeriodIsToday` | utils/date_utils.py:140-143 | any unrecognised tag gives exactly the "today" range |
| `Dates.WeekRange` | utils/date_utils.py:113-116 | "week" starts at midnight on the Monday on or before the reference, holds the reference, and ends one microsecond short of seven days later |
| `Dates.LastWeekRange` | utils/date_utils.py:127-130 | "last_week" is the "week" range moved seven days earlier |
| `Dates.MonthRange` | utils/date_utils.py:118-121 | "month" runs from midnight on the 1st to the last microsecond of the month's last calendar day, and holds the reference |
| `Dates.FebruaryRange` | utils/date_utils.py:118-121 | a February range ends on the 29th in leap years, including 2024, and on the 28th otherwise |
| `Dates.DecemberRange` | utils/date_utils.py:120-121 | a December range ends one microsecond before midnight on January 1 of the next year |
| `Dates.LastMonthRange` | utils/date_utils.py:132-138 | "last_month" starts at midnight on the 1st of the previous month, January going to December of the year before. It ends on that month's last day, one microsecond before the "month" range starts |
| `Dates.YearRange` | utils/date_utils.py:123-125 | "year" runs from midnight on January 1 to the last microsecond of December 31, just before the next year, and holds the reference |
| `Dates.CountBusinessDays` | utils/date_utils.py:159-167 | the loop counts the days start, start + 1 day, … up to end, that `is_weekend` does not reject |
| `Dates.BusinessCountEmpty` | utils/date_utils.py:162 | an end before the start gives 0 |
| `Dates.BusinessCountSplit` | utils/date_utils.py:162-165 | the count splits at any whole number of days |
| `Dates.SevenDays` | utils/date_utils.py:162-165 | any seven consecutive days hold five business days |
| `Dates.FullWeeks` | utils/date_utils.py:162-165 | n whole weeks hold 5n business days |
| `Dates.IsWeekend` | utils/date_utils.py:170-172 | `is_weekend`; its contract is carried by `Dates.SevenDays` and `Dates.FullWeeks`, which count the days it does not reject |
| `Dates.GetMonthName` | utils/date_utils.py:175-181 | `get_month_name`; its contract is carried by `Dates.MonthNameValid`, `Dates.MonthNameInjective` and `Dates.LongMonthName` |
| `Dates.LongMonthName` | utils/date_utils.py:177-181 | the `%B` directive writes the same name as `get_month_name` |
| `Dates.MonthNameValid` | utils/date_utils.py:181 | the name is "Invalid" exactly when the number is outside 1 to 12 |
| `Dates.MonthNameInjective` | utils/date_utils.py:177-181 | different months have different names |

## Left out

- The logging helpers, `utils/logging_utils.py`, are not part of this model. Neither is the package file `utils/__init__.py`.
- `format_currency`, `format_number`, `format_percentage`, `format_large_number` and `format_file_size` are left out; they are binary floating-point formatting and logarithms. `format_transaction_amount` takes `format_currency`'s text as a function parameter.
- Binary floating point is not modelled: `float` values are exact `real`s. `round` is half-to-even on those exact values. The number shown inside the range messages is a parameter.
- `float(str)` and `Decimal(str)` are modelled on the plain numeral grammar only: a sign, digits and an optional point. Exponents, "inf", "nan", underscores and non-ASCII digits are left out.
- Only ASCII is modelled: `lower`, `capitalize`, `isdigit` and `\s` cover ASCII alone, with no Unicode case mapping.
- `str(item)` of arbitrary list items is left out: `FormatListDisplay` takes the items' texts.
- `Validation.ValidateEmail`: the pattern is modelled as a predicate on the normalised text, not as a general regular-expression engine.
- `Dates.Search`: only the two patterns the source uses are modelled, by a leftmost-match search; general regular expressions are not.
- `datetime.now()` is left out: the reference instant is always an argument. `None` arguments in general are left out.
- `dateutil.parser.parse` is a function parameter.
- Time zones, daylight saving and locales are not modelled. `strftime` is modelled for the C locale and the directives the six styles use.
- `datetime`'s year range 1..9999 is not enforced. The model's calendar runs on without bounds, so it does not model the `OverflowError`/`ValueError` Python raises outside years 1..9999. That includes `timedelta`'s own range of at most 999999999 days, and `parse_natural_date`'s table, built eagerly, which raises for a reference within two days of either end of the range. `Dates.StandardRoundTrip` alone assumes four-digit years.
- `Dates.CountBusinessDays` is stated over integers: Python's `current_date += timedelta(days=1)` overflow at year 9999 is not modelled.

## Findings

| source | as written | input that shows it | evidently intended | confidence | as-written member | corrected member |
|---|---|---|---|---|---|---|
| utils/validation_utils.py:19-22 | every character except digits, '.' and '-' is removed, so the point of a symbol like "Rs." stays in front of the digits | `validate_amount("Rs. 500")` is accepted as 0.5 | the currency symbol is removed, and the amount is 500.0 | not executed | `Validation.SymbolPointMisreadsAmount` | `Validation.SymbolAmountAccepted` |
| utils/date_utils.py:24-34 | phrases are tried in table order and "yesterday" and "tomorrow" come before the longer phrases that contain them | `parse_natural_date("day before yesterday", ref)` gives ref − 1 day, and "day after tomorrow" gives ref + 1 day | ref − 2 days and ref + 2 days, as the table says | not executed | `Dates.LongPhrasesNeverDecide` | `Dates.BeforeYesterdayLongestFirst` |
