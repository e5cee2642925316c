/**
 * The display formatters of the toolkit that work on integers and strings
 * only: the income/expense prefix, truncation, durations, title casing,
 * list display and phone numbers. `format_currency` itself, being Python
 * float formatting, is a function parameter.
 */
module Format {
  import opened Wrappers
  import opened Strings

  // ---------------------------------------------------------------------
  // format_transaction_amount

  /**
   * `format_transaction_amount`: the currency text of the amount, prefixed
   * by "+ " for income and "- " for expense, the type compared lower-cased.
   * `formatCurrency` stands for `format_currency(amount, currency_symbol)`.
   */
  function FormatTransactionAmount(formatCurrency: (real, string) -> string, amount: real,
                                   transactionType: string, currencySymbol: string): string
  {
    var formatted := formatCurrency(amount, currencySymbol);
    if Lower(transactionType) == "income" then "+ " + formatted
    else if Lower(transactionType) == "expense" then "- " + formatted
    else formatted
  }

  /**
   * The prefix tells the type apart, in both directions: the text is the
   * currency text behind "+ " exactly for income, behind "- " exactly for
   * expense, and the currency text itself exactly for every other type.
   */
  lemma TransactionPrefix(formatCurrency: (real, string) -> string, amount: real,
                          transactionType: string, currencySymbol: string)
    ensures var base := formatCurrency(amount, currencySymbol);
            var r := FormatTransactionAmount(formatCurrency, amount, transactionType, currencySymbol);
            && (r == "+ " + base <==> Lower(transactionType) == "income")
            && (r == "- " + base <==> Lower(transactionType) == "expense")
            && (r == base <==> Lower(transactionType) != "income" && Lower(transactionType) != "expense")
  {
    var base := formatCurrency(amount, currencySymbol);
    assert |"+ " + base| == |base| + 2;
    assert ("+ " + base)[0] != ("- " + base)[0];
  }

  /** Lower-casing is idempotent, so the type is matched without regard to case. */
  lemma TransactionTypeCaseInsensitive(formatCurrency: (real, string) -> string, amount: real,
                                       transactionType: string, currencySymbol: string)
    ensures FormatTransactionAmount(formatCurrency, amount, transactionType, currencySymbol)
         == FormatTransactionAmount(formatCurrency, amount, Lower(transactionType), currencySymbol)
  {
    LowerIdempotent(transactionType);
  }

  lemma LowerIdempotent(s: string)
    ensures Lower(Lower(s)) == Lower(s)
  {
  }

  // ---------------------------------------------------------------------
  // truncate_text

  /** `truncate_text`: text that is too long keeps its prefix `text[:max_length - len(suffix)]` and gets the suffix. */
  function TruncateText(text: string, maxLength: int, suffix: string): (r: string)
    ensures text == [] ==> r == []
    ensures text != [] && |text| <= maxLength ==> r == text
    ensures text != [] && |text| > maxLength ==> |r| == PrefixLength(|text|, maxLength - |suffix|) + |suffix|
    ensures text != [] && |text| > maxLength ==> |suffix| <= |r| && r == text[..|r| - |suffix|] + suffix
  {
    if text == [] then ""
    else if |text| <= maxLength then text
    else Take(text, maxLength - |suffix|) + suffix
  }

  /** When the limit leaves room for the suffix, a truncated text is exactly `maxLength` long. */
  lemma TruncateExactLength(text: string, maxLength: int, suffix: string)
    requires |text| > maxLength >= |suffix|
    ensures |TruncateText(text, maxLength, suffix)| == maxLength
  {
  }

  /** With room for the suffix, the result never exceeds the limit. */
  lemma TruncateWithinLimit(text: string, maxLength: int, suffix: string)
    requires maxLength >= |suffix|
    ensures |TruncateText(text, maxLength, suffix)| <= maxLength
  {
  }

  /** With room for the suffix, truncating a truncated text changes nothing. */
  lemma TruncateIdempotent(text: string, maxLength: int, suffix: string)
    requires maxLength >= |suffix|
    ensures TruncateText(TruncateText(text, maxLength, suffix), maxLength, suffix) == TruncateText(text, maxLength, suffix)
  {
    TruncateWithinLimit(text, maxLength, suffix);
  }

  // ---------------------------------------------------------------------
  // format_duration

  /** The fields a duration text shows: seconds alone, minutes and seconds, or hours and minutes. */
  datatype Duration = Seconds(total: int) | MinutesSeconds(minutes: nat, seconds: nat) | HoursMinutes(hours: nat, minutes: nat)

  /** How `format_duration` splits a number of seconds. */
  function DurationParts(seconds: int): (d: Duration)
    ensures seconds < 60 ==> d == Seconds(seconds)
    ensures 60 <= seconds < 3600 ==> d.MinutesSeconds? && d.minutes * 60 + d.seconds == seconds && d.seconds < 60 && 1 <= d.minutes < 60
    ensures seconds >= 3600 ==> && d.HoursMinutes? && d.hours >= 1 && d.minutes < 60
                                && d.hours * 3600 + d.minutes * 60 <= seconds < d.hours * 3600 + d.minutes * 60 + 60
  {
    if seconds < 60 then Seconds(seconds)
    else if seconds < 3600 then MinutesSeconds(seconds / 60, seconds % 60)
    else HoursMinutes(seconds / 3600, (seconds % 3600) / 60)
  }

  /** The seconds a duration's fields stand for. */
  function DurationSeconds(d: Duration): int {
    match d
    case Seconds(s) => s
    case MinutesSeconds(m, s) => m * 60 + s
    case HoursMinutes(h, m) => h * 3600 + m * 60
  }

  /** Below an hour the text is exact; from an hour on, it drops the seconds, so it is short by less than a minute. */
  lemma DurationAccuracy(seconds: int)
    ensures seconds < 3600 ==> DurationSeconds(DurationParts(seconds)) == seconds
    ensures seconds >= 3600 ==> seconds - 60 < DurationSeconds(DurationParts(seconds)) <= seconds
  {
  }

  function DurationText(d: Duration): string {
    match d
    case Seconds(s) => IntText(s) + "s"
    case MinutesSeconds(m, s) => NatText(m) + "m " + NatText(s) + "s"
    case HoursMinutes(h, m) => NatText(h) + "h " + NatText(m) + "m"
  }

  /** `format_duration`. */
  function FormatDuration(seconds: int): string {
    DurationText(DurationParts(seconds))
  }

  /** Reads the digits at the front of `s`, if there are any, and what follows them. */
  function ReadNat(s: string): Option<(nat, string)> {
    var k := DigitCount(s);
    if k == 0 then None else Some((DigitsValue(s[..k]), s[k..]))
  }

  /** Reads a duration text back into its fields. */
  function ParseDuration(t: string): Option<Duration> {
    if t != [] && t[0] == '-' then
      match ReadNat(t[1..])
      case Some((a, rest)) => if rest == "s" then Some(Seconds(0 - a)) else None
      case None => None
    else
      match ReadNat(t)
      case Some((a, rest)) => ParseUnits(a, rest)
      case None => None
  }

  /** What follows the first number: "s", or a unit, a space and the second field. */
  function ParseUnits(a: nat, rest: string): Option<Duration> {
    if rest == "s" then Some(Seconds(a))
    else if |rest| < 2 || rest[1] != ' ' then None
    else ParseSecondField(a, rest[0], rest[2..])
  }

  function ParseSecondField(a: nat, unit: char, t: string): Option<Duration> {
    match ReadNat(t)
    case Some((b, tail)) =>
      if unit == 'm' && tail == "s" then Some(MinutesSeconds(a, b))
      else if unit == 'h' && tail == "m" then Some(HoursMinutes(a, b))
      else None
    case None => None
  }

  lemma ReadNatText(n: nat, rest: string)
    requires rest == [] || !IsDigit(rest[0])
    ensures ReadNat(NatText(n) + rest) == Some((n, rest))
  {
    var t := NatText(n);
    var s := t + rest;
    DigitCountOfDigits(t, rest);
    assert s[..|t|] == t;
    assert s[|t|..] == rest;
    NatTextValue(n);
  }

  /** Every duration text reads back as the fields it was written from. */
  lemma ParseDurationText(d: Duration)
    ensures ParseDuration(DurationText(d)) == Some(d)
  {
    match d
    case Seconds(s) => ParseSecondsText(s);
    case MinutesSeconds(m, s) => ParseMinutesText(m, s);
    case HoursMinutes(h, m) => ParseHoursText(h, m);
  }

  lemma ParseSecondsText(s: int)
    ensures ParseDuration(DurationText(Seconds(s))) == Some(Seconds(s))
  {
    if s < 0 {
      NegativeSecondsText(-s);
    } else {
      FirstFieldText(s, "s");
      assert DurationText(Seconds(s)) == NatText(s) + "s";
    }
  }

  lemma NegativeSecondsText(n: nat)
    requires n > 0
    ensures ParseDuration(DurationText(Seconds(0 - n))) == Some(Seconds(0 - n))
  {
    var t := "-" + (NatText(n) + "s");
    assert DurationText(Seconds(0 - n)) == t;
    assert t[0] == '-' && t[1..] == NatText(n) + "s";
    ReadNatText(n, "s");
  }

  /** A text starting with a number's digits is read by its units part. */
  lemma FirstFieldText(n: nat, rest: string)
    requires rest == [] || !IsDigit(rest[0])
    ensures ParseDuration(NatText(n) + rest) == ParseUnits(n, rest)
  {
    var t := NatText(n) + rest;
    assert t[0] == NatText(n)[0];
    ReadNatText(n, rest);
  }

  lemma ParseMinutesText(m: nat, s: nat)
    ensures ParseDuration(DurationText(MinutesSeconds(m, s))) == Some(MinutesSeconds(m, s))
  {
    var rest := "m " + (NatText(s) + "s");
    assert DurationText(MinutesSeconds(m, s)) == NatText(m) + rest;
    FirstFieldText(m, rest);
    assert rest[1] == ' ' && rest[2..] == NatText(s) + "s";
    ReadNatText(s, "s");
    assert ParseSecondField(m, 'm', NatText(s) + "s") == Some(MinutesSeconds(m, s));
  }

  lemma ParseHoursText(h: nat, m: nat)
    ensures ParseDuration(DurationText(HoursMinutes(h, m))) == Some(HoursMinutes(h, m))
  {
    var rest := "h " + (NatText(m) + "m");
    assert DurationText(HoursMinutes(h, m)) == NatText(h) + rest;
    FirstFieldText(h, rest);
    assert rest[1] == ' ' && rest[2..] == NatText(m) + "m";
    ReadNatText(m, "m");
    assert ParseSecondField(h, 'h', NatText(m) + "m") == Some(HoursMinutes(h, m));
  }

  /** The text `format_duration` writes reads back as the split of its argument. */
  lemma FormatDurationRoundTrip(seconds: int)
    ensures ParseDuration(FormatDuration(seconds)) == Some(DurationParts(seconds))
  {
    ParseDurationText(DurationParts(seconds));
  }

  // ---------------------------------------------------------------------
  // capitalize_words

  /** The words kept lower-case unless they come first. */
  const StopWords: set<string> :=
    {"a", "an", "and", "as", "at", "but", "by", "for", "in", "of", "on", "or", "the", "to", "up", "via"}

  /** `str.capitalize()` on ASCII: the first character upper-cased and the rest lower-cased. */
  function Capitalize(w: string): (r: string)
    ensures |r| == |w|
    ensures Lower(r) == Lower(w)
    ensures w != [] ==> !IsLowerLetter(r[0])
    ensures forall i :: 1 <= i < |r| ==> !IsUpper(r[i])
  {
    if w == [] then []
    else
      var r := [UpperChar(w[0])] + Lower(w[1..]);
      assert forall i :: 0 <= i < |w| ==> LowerChar(r[i]) == LowerChar(w[i]) by {
        forall i | 0 <= i < |w| ensures LowerChar(r[i]) == LowerChar(w[i]) {
          if i > 0 { assert r[i] == LowerChar(w[1..][i - 1]); }
        }
      }
      r
  }

  /** How the word at position `i` of the lower-cased text is written. */
  function StyleWord(i: nat, w: string): string {
    if i == 0 || w !in StopWords then Capitalize(w) else w
  }

  /** The words of `capitalize_words`'s result, in order. */
  function TitleWords(ws: seq<string>): (r: seq<string>)
    ensures |r| == |ws|
  {
    seq(|ws|, i requires 0 <= i < |ws| => StyleWord(i, ws[i]))
  }

  /** `capitalize_words`: lower-case, split into words, restyle each word, join with single spaces. */
  method CapitalizeWords(text: string) returns (r: string)
    ensures r == Join(TitleWords(Split(Lower(text))), " ")
  {
    if text == [] {
      return "";
    }
    var words := Split(Lower(text));
    var result: seq<string> := [];
    for i := 0 to |words|
      invariant result == TitleWords(words[..i])
    {
      if i == 0 || words[i] !in StopWords {
        result := result + [Capitalize(words[i])];
      } else {
        result := result + [words[i]];
      }
    }
    assert words[..|words|] == words;
    r := Join(result, " ");
  }

  /**
   * The restyled words are the words of the text in order, up to case: the
   * first is capitalised, a later stop word stays lower-case, and every
   * other word is capitalised.
   */
  lemma TitleWordsFacts(text: string)
    ensures var ws := Split(Lower(text));
            var ts := TitleWords(ws);
            && |ts| == |ws|
            && (forall i :: 0 <= i < |ws| ==> Lower(ts[i]) == ws[i])
            && (|ws| > 0 ==> ts[0] == Capitalize(ws[0]))
            && (forall i :: 0 < i < |ws| && ws[i] in StopWords ==> ts[i] == ws[i])
            && (forall i :: 0 < i < |ws| && ws[i] !in StopWords ==> ts[i] == Capitalize(ws[i]))
  {
    var ws := Split(Lower(text));
    forall i | 0 <= i < |ws| ensures Lower(TitleWords(ws)[i]) == ws[i] {
      LowerOfSplit(text, i);
      LowerCapitalize(ws[i]);
    }
  }

  /** The words of a lower-cased text are themselves lower-case. */
  lemma LowerOfSplit(text: string, i: nat)
    requires i < |Split(Lower(text))|
    ensures Lower(Split(Lower(text))[i]) == Split(Lower(text))[i]
  {
    SplitOfLower(Lower(text));
    var w := Split(Lower(text))[i];
    assert NoUpper(w);
    assert forall k :: 0 <= k < |w| ==> w[k] == LowerChar(w[k]);
  }

  predicate NoUpper(s: string) {
    forall k :: 0 <= k < |s| ==> !IsUpper(s[k])
  }

  /** Splitting a text whose letters are lower-case gives words whose letters are lower-case. */
  lemma {:induction false} SplitOfLower(s: string)
    requires NoUpper(s)
    ensures forall i :: 0 <= i < |Split(s)| ==> NoUpper(Split(s)[i])
    decreases |s|
  {
    var t := TrimStart(s);
    if t != [] {
      var w := WordPrefix(t);
      var rest := t[|w|..];
      assert NoUpper(t);
      assert NoUpper(w);
      assert NoUpper(rest);
      SplitOfLower(rest);
      assert Split(s) == [w] + Split(rest);
    }
  }

  lemma LowerCapitalize(w: string)
    requires Lower(w) == w
    ensures Lower(Capitalize(w)) == w
  {
    if w != [] {
      LowerConcat([UpperChar(w[0])], Lower(w[1..]));
      assert w == [w[0]] + w[1..];
      LowerConcat([w[0]], w[1..]);
      LowerIdempotent(w[1..]);
    }
  }

  /** Restyling keeps each word a word, so splitting the result gives the restyled words back. */
  lemma CapitalizeWordsSplit(text: string)
    ensures Split(Join(TitleWords(Split(Lower(text))), " ")) == TitleWords(Split(Lower(text)))
  {
    var ws := Split(Lower(text));
    SplitGivesWords(Lower(text));
    var ts := TitleWords(ws);
    forall i | 0 <= i < |ts| ensures IsWord(ts[i]) {
      CapitalizeKeepsWord(ws[i]);
    }
    SplitJoin(ts);
  }

  lemma CapitalizeKeepsWord(w: string)
    requires IsWord(w)
    ensures IsWord(Capitalize(w))
  {
    var c := Capitalize(w);
    assert forall k :: 0 <= k < |c| ==> c[k] == UpperChar(w[k]) || c[k] == LowerChar(w[k]);
  }

  /** Up to case, the result is the lower-cased text's words joined by single spaces. */
  lemma CapitalizeWordsLower(text: string)
    ensures Lower(Join(TitleWords(Split(Lower(text))), " ")) == Join(Split(Lower(text)), " ")
  {
    var ws := Split(Lower(text));
    var ts := TitleWords(ws);
    TitleWordsFacts(text);
    LowerJoin(ts, " ");
    var lowered := seq(|ts|, k requires 0 <= k < |ts| => Lower(ts[k]));
    assert lowered == ws;
    assert Lower(" ") == " ";
  }

  lemma LowerOfNoUpper(s: string)
    requires NoUpper(s)
    ensures Lower(s) == s
  {
  }

  /** "the lord of the rings" becomes "The Lord of the Rings". */
  lemma TitleExample()
    ensures Join(TitleWords(Split(Lower("the lord of the rings"))), " ") == "The Lord of the Rings"
  {
    TitleExampleSplit();
    TitleExampleStyled();
    TitleExampleJoined();
  }

  lemma TitleExampleSplit()
    ensures Split(Lower("the lord of the rings")) == ["the", "lord", "of", "the", "rings"]
  {
    TitleExampleLower();
    TitleExampleJoin();
    TitleExampleWords();
    SplitJoin(["the", "lord", "of", "the", "rings"]);
  }

  lemma TitleExampleLower()
    ensures Lower("the lord of the rings") == "the lord of the rings"
  {
    assert NoUpper("the lord of the rings");
    LowerOfNoUpper("the lord of the rings");
  }

  lemma TitleExampleJoin()
    ensures Join(["the", "lord", "of", "the", "rings"], " ") == "the lord of the rings"
  {
    JoinFive("the", "lord", "of", "the", "rings", " ");
  }

  /** Joining five words, written out. */
  lemma JoinFive(a: string, b: string, c: string, d: string, e: string, sep: string)
    ensures Join([a, b, c, d, e], sep) == a + sep + b + sep + c + sep + d + sep + e
  {
    JoinCons(d, [e], sep);
    assert [d] + [e] == [d, e];
    JoinCons(c, [d, e], sep);
    assert [c] + [d, e] == [c, d, e];
    JoinCons(b, [c, d, e], sep);
    assert [b] + [c, d, e] == [b, c, d, e];
    JoinCons(a, [b, c, d, e], sep);
    assert [a] + [b, c, d, e] == [a, b, c, d, e];
  }

  lemma TitleExampleWords()
    ensures var ws := ["the", "lord", "of", "the", "rings"];
            forall k :: 0 <= k < |ws| ==> IsWord(ws[k])
  {
  }

  lemma TitleExampleJoined()
    ensures Join(["The", "Lord", "of", "the", "Rings"], " ") == "The Lord of the Rings"
  {
    JoinFive("The", "Lord", "of", "the", "Rings", " ");
  }

  lemma TitleExampleStyled()
    ensures TitleWords(["the", "lord", "of", "the", "rings"]) == ["The", "Lord", "of", "the", "Rings"]
  {
    TitleExampleCapitals();
    TitleExampleStops();
  }

  lemma TitleExampleCapitals()
    ensures Capitalize("the") == "The" && Capitalize("lord") == "Lord" && Capitalize("rings") == "Rings"
  {
  }

  lemma TitleExampleStops()
    ensures "lord" !in StopWords && "rings" !in StopWords && "of" in StopWords && "the" in StopWords
  {
  }

  // ---------------------------------------------------------------------
  // format_list_display

  /**
   * `format_list_display` over the items' `str()` texts: all items with the
   * last behind `finalSeparator` while there are at most `maxItems` (two
   * items always), otherwise the first `maxItems[:]` items and a count of
   * the others.
   */
  function FormatListDisplay(items: seq<string>, maxItems: int, separator: string, finalSeparator: string): string {
    if |items| == 0 then ""
    else if |items| == 1 then items[0]
    else if |items| == 2 then items[0] + finalSeparator + items[1]
    else if |items| <= maxItems then Join(items[..|items| - 1], separator) + finalSeparator + items[|items| - 1]
    else Join(Take(items, maxItems), separator) + " and " + NatText(|items| - maxItems) + " more"
  }

  /** Two items are always shown in full, whatever the limit. */
  lemma TwoItemsIgnoreLimit(items: seq<string>, m1: int, m2: int, separator: string, finalSeparator: string)
    requires |items| == 2
    ensures FormatListDisplay(items, m1, separator, finalSeparator) == FormatListDisplay(items, m2, separator, finalSeparator)
  {
  }

  /** Within the limit every item appears in the text. */
  lemma ListShowsEveryItem(items: seq<string>, maxItems: int, separator: string, finalSeparator: string, i: nat)
    requires i < |items| && (|items| <= 2 || |items| <= maxItems)
    ensures Contains(FormatListDisplay(items, maxItems, separator, finalSeparator), items[i])
  {
    var r := FormatListDisplay(items, maxItems, separator, finalSeparator);
    if |items| == 1 {
      ContainsSelf(items[0]);
    } else if |items| == 2 {
      if i == 0 {
        ContainsPrefix(items[0], finalSeparator + items[1]);
        assert r == items[0] + (finalSeparator + items[1]);
      } else {
        ContainsSuffix(items[0] + finalSeparator, items[1]);
      }
    } else {
      var first := Join(items[..|items| - 1], separator);
      if i == |items| - 1 {
        ContainsSuffix(first + finalSeparator, items[i]);
      } else {
        JoinContains(items[..|items| - 1], separator, i);
        ContainsPrefix(first, finalSeparator + items[|items| - 1]);
        assert r == first + (finalSeparator + items[|items| - 1]);
        ContainsTransitive(r, first, items[i]);
      }
    }
  }

  /**
   * Past the limit (a limit of at least zero), the first `maxItems` items are
   * shown and the count printed is the number of items left out.
   */
  lemma ListCountsHidden(items: seq<string>, maxItems: int, separator: string, finalSeparator: string)
    requires 0 <= maxItems < |items| && |items| >= 3
    ensures exists hidden: nat ::
      && maxItems + hidden == |items|
      && FormatListDisplay(items, maxItems, separator, finalSeparator)
         == Join(items[..maxItems], separator) + " and " + NatText(hidden) + " more"
  {
    var hidden: nat := |items| - maxItems;
    assert Take(items, maxItems) == items[..maxItems];
    assert FormatListDisplay(items, maxItems, separator, finalSeparator)
        == Join(items[..maxItems], separator) + " and " + NatText(hidden) + " more";
  }

  /**
   * Two items, or any number within the limit, are shown in order: all but
   * the last joined by `separator`, then `finalSeparator` and the last item.
   */
  lemma ListWithinLimit(items: seq<string>, maxItems: int, separator: string, finalSeparator: string)
    requires |items| >= 2 && (|items| == 2 || |items| <= maxItems)
    ensures FormatListDisplay(items, maxItems, separator, finalSeparator)
            == Join(items[..|items| - 1], separator) + finalSeparator + items[|items| - 1]
  {
    if |items| == 2 {
      assert items[..1] == [items[0]];
    }
  }

  /** With one separator throughout, a list within the limit is its items joined by that separator. */
  lemma ListSameSeparators(items: seq<string>, maxItems: int, separator: string)
    requires |items| <= 2 || |items| <= maxItems
    ensures FormatListDisplay(items, maxItems, separator, separator) == Join(items, separator)
  {
    if |items| <= 1 {
      ListOfAtMostOne(items, maxItems, separator, separator);
    } else {
      var init, last := items[..|items| - 1], items[|items| - 1];
      ListWithinLimit(items, maxItems, separator, separator);
      JoinSnoc(init, last, separator);
      InitLast(items);
    }
  }

  /** No items give the empty text, and one item is shown by itself whatever the limit and separators. */
  lemma ListOfAtMostOne(items: seq<string>, maxItems: int, separator: string, finalSeparator: string)
    requires |items| <= 1
    ensures |items| == 0 ==> FormatListDisplay(items, maxItems, separator, finalSeparator) == ""
    ensures |items| == 1 ==> FormatListDisplay(items, maxItems, separator, finalSeparator) == items[0]
  {
  }

  /** Four items past a limit of three, with the default separators. */
  lemma ListDisplayExample()
    ensures FormatListDisplay(["a", "b", "c", "d"], 3, ", ", " and ") == "a, b, c and 1 more"
  {
    var items := ["a", "b", "c", "d"];
    assert Take(items, 3) == ["a", "b", "c"];
    JoinCons("a", ["b", "c"], ", ");
    JoinCons("b", ["c"], ", ");
    assert Join(["a", "b", "c"], ", ") == "a, b, c";
    assert NatText(1) == "1";
  }

  lemma ContainsPrefix(a: string, b: string)
    ensures Contains(a + b, a)
  {
    assert (a + b)[0..|a|] == a;
    assert OccursAt(a + b, a, 0);
  }

  lemma ContainsSuffix(a: string, b: string)
    ensures Contains(a + b, b)
  {
    assert (a + b)[|a|..|a| + |b|] == b;
    assert OccursAt(a + b, b, |a|);
  }

  /** Each of the joined items occurs in the joined text. */
  lemma {:induction false} JoinContains(ws: seq<string>, sep: string, i: nat)
    requires i < |ws|
    ensures Contains(Join(ws, sep), ws[i])
  {
    if |ws| == 1 {
      ContainsSelf(ws[0]);
    } else if i == 0 {
      ContainsPrefix(ws[0], sep + Join(ws[1..], sep));
      assert Join(ws, sep) == ws[0] + (sep + Join(ws[1..], sep));
    } else {
      JoinContains(ws[1..], sep, i - 1);
      ContainsSuffix(ws[0] + sep, Join(ws[1..], sep));
      ContainsTransitive(Join(ws, sep), Join(ws[1..], sep), ws[i]);
    }
  }

  // ---------------------------------------------------------------------
  // format_phone_number

  /** The country code, a space, the first five digits, a space, the last five. */
  function PhoneText(countryCode: string, digits: string): string
    requires |digits| == 10
  {
    countryCode + " " + digits[..5] + " " + digits[5..]
  }

  /**
   * `format_phone_number`: ten digits, or eleven with a leading 0 dropped,
   * are grouped five and five behind the country code; any other input
   * comes back unchanged.
   */
  function FormatPhoneNumber(phone: string, countryCode: string): string {
    if phone == [] then ""
    else
      var digits := Filter(phone, IsDigit);
      if |digits| == 10 then PhoneText(countryCode, digits)
      else if |digits| == 11 && digits[0] == '0' then PhoneText(countryCode, digits[1..])
      else phone
  }

  /** The ten digits a phone number is formatted from, if it has them. */
  function PhoneDigits(phone: string): Option<string> {
    var digits := Filter(phone, IsDigit);
    if |digits| == 10 then Some(digits)
    else if |digits| == 11 && digits[0] == '0' then Some(digits[1..])
    else None
  }

  /**
   * The digits of a formatted number are the country code's, then the two
   * groups, which are five digits each and together the ten digits of the
   * input; an input without ten such digits is returned as it is.
   */
  lemma PhoneGroups(phone: string, countryCode: string)
    requires phone != []
    ensures var r := FormatPhoneNumber(phone, countryCode);
            match PhoneDigits(phone)
            case None => r == phone
            case Some(d) =>
              && |d| == 10 && AllDigits(d)
              && (exists a, b :: |a| == 5 && |b| == 5 && a + b == d && r == countryCode + " " + a + " " + b)
              && Filter(r, IsDigit) == Filter(countryCode, IsDigit) + d
  {
    var r := FormatPhoneNumber(phone, countryCode);
    match PhoneDigits(phone)
    case None =>
    case Some(d) =>
      var a := d[..5];
      var b := d[5..];
      assert a + b == d;
      assert r == countryCode + " " + a + " " + b;
      PhoneTextDigits(countryCode, d);
  }

  lemma PhoneTextDigits(countryCode: string, d: string)
    requires |d| == 10 && AllDigits(d)
    ensures Filter(PhoneText(countryCode, d), IsDigit) == Filter(countryCode, IsDigit) + d
  {
    var a := d[..5];
    var b := d[5..];
    var tail := a + (" " + b);
    assert PhoneText(countryCode, d) == countryCode + (" " + tail);
    FilterConcat(countryCode, " " + tail, IsDigit);
    FilterSkipsSpace(tail);
    GroupsDigits(d);
  }

  lemma GroupsDigits(d: string)
    requires |d| == 10 && AllDigits(d)
    ensures Filter(d[..5] + (" " + d[5..]), IsDigit) == d
  {
    var a := d[..5];
    var b := d[5..];
    assert AllDigits(a) && AllDigits(b);
    FilterConcat(a, " " + b, IsDigit);
    FilterSkipsSpace(b);
    FilterKeepsAll(a, IsDigit);
    FilterKeepsAll(b, IsDigit);
    assert a + b == d;
  }

  lemma FilterSkipsSpace(s: string)
    ensures Filter(" " + s, IsDigit) == Filter(s, IsDigit)
  {
    assert (" " + s)[1..] == s;
  }

  /**
   * Formatting a formatted number changes nothing: its digits are the
   * country code's and the ten grouped ones, which either regroup to the
   * same text or are too many to be regrouped at all.
   */
  lemma PhoneIdempotent(phone: string, countryCode: string)
    ensures FormatPhoneNumber(FormatPhoneNumber(phone, countryCode), countryCode) == FormatPhoneNumber(phone, countryCode)
  {
    if phone != [] {
      PhoneGroups(phone, countryCode);
      match PhoneDigits(phone)
      case None =>
      case Some(d) =>
        var r := FormatPhoneNumber(phone, countryCode);
        var code := Filter(countryCode, IsDigit);
        assert r == PhoneText(countryCode, d);
        assert r != [];
        if |code| == 1 {
          assert Filter(r, IsDigit) == code + d;
          assert Filter(r, IsDigit)[1..] == d;
        }
    }
  }
}
