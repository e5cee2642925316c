/**
 * The input validators and sanitisers of the toolkit. Each validator
 * returns the source's outcome tuple: `(is_valid, value, error_message)`
 * as `Checked`, or `(is_valid, error_message)` as `Verdict`. Failures are
 * ordinary results, never exceptions. Error messages are error kinds with
 * their exact texts given by `Message`.
 */
module Validation {
  import opened Wrappers
  import opened Strings
  import opened Numerals

  // ---------------------------------------------------------------------
  // Outcomes

  datatype Error =
    | AmountEmpty
    | AmountNotPositive
    | AmountTooLarge
    | AmountInvalid
    | DescriptionEmpty
    | DescriptionTooShort
    | DescriptionTooLong
    | CategoryMissing
    | CategoryUnknown(allowed: seq<string>)
    | EmailRequired
    | EmailMalformed
    | EmailTooLong
    | BelowMinimum(min: real)
    | AboveMaximum(max: real)
    | NotNumeric
    | TextTooShort(minLength: int)
    | TextTooLong(maxLength: int)
    | AmountRequired
    | TooManyDecimals

  /**
   * The user-facing text of an error. `showNumber` stands for Python's
   * rendering of a float bound inside an f-string.
   */
  function Message(e: Error, showNumber: real -> string): string {
    match e
    case AmountEmpty => "Amount cannot be empty"
    case AmountNotPositive => "Amount must be greater than zero"
    case AmountTooLarge => "Amount exceeds maximum limit"
    case AmountInvalid => "Invalid amount format"
    case DescriptionEmpty => "Description cannot be empty"
    case DescriptionTooShort => "Description must be at least 3 characters long"
    case DescriptionTooLong => "Description cannot exceed 500 characters"
    case CategoryMissing => "Category must be selected"
    case CategoryUnknown(allowed) => "Invalid category. Must be one of: " + Join(allowed, ", ")
    case EmailRequired => "Email address is required"
    case EmailMalformed => "Invalid email address format"
    case EmailTooLong => "Email address is too long"
    case BelowMinimum(min) => "Value must be at least " + showNumber(min)
    case AboveMaximum(max) => "Value cannot exceed " + showNumber(max)
    case NotNumeric => "Invalid numeric value"
    case TextTooShort(minLength) => "Text must be at least " + IntText(minLength) + " characters long"
    case TextTooLong(maxLength) => "Text cannot exceed " + IntText(maxLength) + " characters"
    case AmountRequired => "Amount is required"
    case TooManyDecimals => "Amount cannot have more than 2 decimal places"
  }

  /** The triple `(is_valid, value, error_message)`. */
  datatype Checked<T> = Checked(ok: bool, value: Option<T>, error: Option<Error>) {
    /** The error is absent exactly when the check passed, and so is the value present. */
    predicate WellFormed() {
      (ok <==> error.None?) && (ok <==> value.Some?)
    }
  }

  /** The pair `(is_valid, error_message)`. */
  datatype Verdict = Verdict(ok: bool, error: Option<Error>) {
    predicate WellFormed() {
      ok <==> error.None?
    }
  }

  function Accept<T>(v: T): Checked<T> {
    Checked(true, Some(v), None)
  }

  function Reject<T>(e: Error): Checked<T> {
    Checked(false, None, Some(e))
  }

  const Pass: Verdict := Verdict(true, None)

  function Fail(e: Error): Verdict {
    Verdict(false, Some(e))
  }

  // ---------------------------------------------------------------------
  // Numbers

  /** A value handed to a validator: a string, a number, or a value of any other type. */
  datatype Input = Text(s: string) | Number(x: real) | Other

  /** `float(value)`; `None` where Python raises `ValueError` or `TypeError`. */
  function ToFloat(v: Input): Option<real> {
    match v
    case Text(s) =>
      (match ParseNumber(s)
       case Some(n) => Some(Value(n))
       case None => None)
    case Number(x) => Some(x)
    case Other => None
  }

  /** A whole number of hundredths. */
  predicate IsHundredths(x: real) {
    (x * 100.0).Floor as real == x * 100.0
  }

  /** `round(x, 2)`: the nearest hundredth, ties to the even one. */
  function Round2(x: real): (r: real)
    ensures IsHundredths(r)
    ensures -0.005 <= r - x <= 0.005
    ensures IsHundredths(x) ==> r == x
  {
    var c := x * 100.0;
    var f := c.Floor;
    var d := c - f as real;
    var k := if d < 0.5 then f else if d > 0.5 then f + 1 else if f % 2 == 0 then f else f + 1;
    assert (k as real / 100.0) * 100.0 == k as real;
    k as real / 100.0
  }

  // ---------------------------------------------------------------------
  // validate_amount

  predicate IsAmountChar(c: char) {
    IsDigit(c) || c == '.' || c == '-'
  }

  /** `re.sub(r'[^\d.-]', '', s.strip())`. */
  function CleanAmount(s: string): string {
    Filter(Trim(s), IsAmountChar)
  }

  /** The number `validate_amount` goes on to check, when `float()` accepts its input. */
  function AmountOf(input: Input): Option<real> {
    match input
    case Text(s) => ToFloat(Text(CleanAmount(s)))
    case _ => ToFloat(input)
  }

  /**
   * `validate_amount`: the checks come in a fixed order (empty after
   * cleaning, unparseable, not positive, above 999999999); a valid amount
   * is returned rounded to hundredths.
   */
  function ValidateAmount(input: Input): (r: Checked<real>)
    ensures r.WellFormed()
    ensures input.Text? && CleanAmount(input.s) == [] ==> r == Reject(AmountEmpty)
    ensures !(input.Text? && CleanAmount(input.s) == []) ==>
      match AmountOf(input)
      case None => r == Reject(AmountInvalid)
      case Some(x) =>
        && (x <= 0.0 ==> r == Reject(AmountNotPositive))
        && (x > 999999999.0 ==> r == Reject(AmountTooLarge))
        && (0.0 < x <= 999999999.0 ==> r.ok && r.value == Some(Round2(x)))
  {
    if input.Text? && CleanAmount(input.s) == [] then Reject(AmountEmpty)
    else
      match AmountOf(input)
      case None => Reject(AmountInvalid)
      case Some(x) =>
        if x <= 0.0 then Reject(AmountNotPositive)
        else if x > 999999999.0 then Reject(AmountTooLarge)
        else Accept(Round2(x))
  }

  /** A positive amount of at most 999999999 with at most two decimals is accepted unchanged. */
  lemma ExactAmountAccepted(x: real)
    requires 0.0 < x <= 999999999.0 && IsHundredths(x)
    ensures ValidateAmount(Number(x)) == Accept(x)
  {
  }

  /** The digits of a whole amount are accepted as that amount. */
  lemma {:induction false} WholeAmountTextAccepted(k: nat)
    requires 1 <= k <= 999999999
    ensures ValidateAmount(Text(NatText(k))) == Accept(k as real)
  {
    var t := NatText(k);
    DigitsAreClean(t);
    ParseNatText(k);
    assert ParseNumber(t) == Some(Numeral(Unsigned, t, false, ""));
    assert ToFloat(Text(t)) == Some(k as real);
    assert AmountOf(Text(t)) == Some(k as real);
    WholeIsHundredths(k);
  }

  lemma WholeIsHundredths(k: int)
    ensures IsHundredths(k as real)
  {
    assert (k as real) * 100.0 == (k * 100) as real;
  }

  lemma {:induction false} DigitsAreClean(t: string)
    requires t != [] && AllDigits(t)
    ensures Trim(t) == t && CleanAmount(t) == t
  {
    TrimOfTrimmed(t);
    assert forall i :: 0 <= i < |t| ==> IsAmountChar(t[i]);
    FilterKeepsAll(t, IsAmountChar);
  }

  /**
   * A symbol ending in a point, such as "Rs.", keeps that point through
   * the cleaning: the digits written after it are read as a fraction.
   */
  lemma {:induction false} SymbolPointMakesFraction(letters: string, digits: string)
    requires letters != [] && !IsSpace(letters[0])
    requires forall i :: 0 <= i < |letters| ==> !IsAmountChar(letters[i])
    requires digits != [] && AllDigits(digits)
    ensures CleanAmount(letters + ". " + digits) == "." + digits
    ensures AmountOf(Text(letters + ". " + digits)) ==
      Some(DigitsValue(digits) as real / Pow10(|digits|) as real)
  {
    CleanSymbolPoint(letters, digits);
    PointDigitsValue(digits);
  }

  lemma {:induction false} CleanSymbolPoint(letters: string, digits: string)
    requires letters != [] && !IsSpace(letters[0])
    requires forall i :: 0 <= i < |letters| ==> !IsAmountChar(letters[i])
    requires digits != [] && AllDigits(digits)
    ensures CleanAmount(letters + ". " + digits) == "." + digits
  {
    var s := letters + ". " + digits;
    assert s[|s| - 1] == digits[|digits| - 1];
    TrimOfTrimmed(s);
    FilterSymbolPoint(letters, digits);
  }

  lemma {:induction false} FilterSymbolPoint(letters: string, digits: string)
    requires forall i :: 0 <= i < |letters| ==> !IsAmountChar(letters[i])
    requires AllDigits(digits)
    ensures Filter(letters + ". " + digits, IsAmountChar) == "." + digits
  {
    FilterConcat(letters + ". ", digits, IsAmountChar);
    FilterConcat(letters, ". ", IsAmountChar);
    FilterDropsAll(letters, IsAmountChar);
    assert forall i :: 0 <= i < |digits| ==> IsAmountChar(digits[i]);
    FilterKeepsAll(digits, IsAmountChar);
    assert Filter(". ", IsAmountChar) == ".";
  }

  lemma {:induction false} PointDigitsValue(digits: string)
    requires digits != [] && AllDigits(digits)
    ensures ToFloat(Text("." + digits)) == Some(DigitsValue(digits) as real / Pow10(|digits|) as real)
  {
    PointDigitsParsed(digits);
    var n := Numeral(Unsigned, "", true, digits);
    assert Value(n) == DigitsValue(digits) as real / Pow10(|digits|) as real;
  }

  lemma {:induction false} PointDigitsParsed(digits: string)
    requires digits != [] && AllDigits(digits)
    ensures ParseNumber("." + digits) == Some(Numeral(Unsigned, "", true, digits))
  {
    var n := Numeral(Unsigned, "", true, digits);
    assert Render(n) == "." + digits by {
      assert SignText(Unsigned) + "" == "";
      assert "" + ("." + digits) == "." + digits;
    }
    ParseNumberRender(n);
  }

  /** So "Rs. 500" is accepted as half a rupee. */
  lemma SymbolPointMisreadsAmount()
    ensures ValidateAmount(Text("Rs. 500")) == Accept(0.5)
  {
    RsAmountCleaned();
    HalfFromPointDigits();
    assert IsHundredths(0.5) by {
      assert 0.5 * 100.0 == 50 as real;
    }
    TextAmountAccepted("Rs. 500", 0.5);
  }

  lemma HalfFromPointDigits()
    ensures ToFloat(Text(".500")) == Some(0.5)
  {
    HalfParsed();
    HalfValue();
  }

  lemma HalfParsed()
    ensures ParseNumber(".500") == Some(Numeral(Unsigned, "", true, "500"))
  {
    HalfTrimmed();
    HalfNumeral();
  }

  lemma HalfTrimmed()
    ensures Trim(".500") == ".500"
  {
  }

  lemma HalfNumeral()
    ensures ParseNumeral(".500") == Some(Numeral(Unsigned, "", true, "500"))
  {
  }

  lemma HalfValue()
    ensures Value(Numeral(Unsigned, "", true, "500")) == 0.5
  {
    assert "500"[..2] == "50" && "50"[..1] == "5" && "5"[..0] == "";
    assert DigitsValue("500") == 500;
    assert Pow10(3) == 1000;
  }

  lemma RsAmountCleaned()
    ensures CleanAmount("Rs. 500") == ".500"
  {
    RsAmountTrimmed();
    RsAmountFiltered();
  }

  lemma RsAmountTrimmed()
    ensures Trim("Rs. 500") == "Rs. 500"
  {
  }

  lemma RsAmountFiltered()
    ensures Filter("Rs. 500", IsAmountChar) == ".500"
  {
    assert "Rs. 500" == "Rs" + ". " + "500";
    assert "." + "500" == ".500";
    FilterSymbolPoint("Rs", "500");
  }

  /** A text whose cleaned form reads as an amount in range with at most two decimals is accepted as that amount. */
  lemma TextAmountAccepted(s: string, x: real)
    requires ToFloat(Text(CleanAmount(s))) == Some(x)
    requires 0.0 < x <= 999999999.0 && IsHundredths(x)
    ensures ValidateAmount(Text(s)) == Accept(x)
  {
  }

  /**
   * `validate_amount` with a leading currency symbol removed before the
   * cleaning, as its own comment ("Remove currency symbols") intends.
   */
  function ValidateAmountWithSymbol(input: Input, symbol: string): (r: Checked<real>)
    ensures r.WellFormed()
    ensures !input.Text? ==> r == ValidateAmount(input)
    ensures input.Text? ==> r == ValidateAmount(Text(StripSymbol(input.s, symbol)))
  {
    match input
    case Text(s) => ValidateAmount(Text(StripSymbol(s, symbol)))
    case _ => ValidateAmount(input)
  }

  /** With the symbol removed first, an amount written after the symbol is read as written. */
  lemma {:induction false} SymbolAmountAccepted(symbol: string, k: nat)
    requires 1 <= k <= 999999999
    requires symbol != [] && !IsSpace(symbol[0])
    ensures ValidateAmountWithSymbol(Text(symbol + " " + NatText(k)), symbol) == Accept(k as real)
  {
    var t := NatText(k);
    StripSymbolSpace(symbol, t);
    WholeAmountTextAccepted(k);
  }

  /** "Rs. 500" is accepted as 500 once the symbol is removed first. */
  lemma SymbolAmountExample()
    ensures ValidateAmountWithSymbol(Text("Rs. 500"), "Rs.") == Accept(500.0)
  {
    assert NatText(500) == "500";
    assert "Rs. 500" == "Rs." + " " + NatText(500);
    SymbolAmountAccepted("Rs.", 500);
  }

  // ---------------------------------------------------------------------
  // validate_transaction_description

  /**
   * `validate_transaction_description`: a stripped description of 3 to
   * 500 characters is accepted, and comes back with whitespace runs
   * collapsed: still 3 to 500 characters, no whitespace at either end and
   * no two whitespace characters in a row.
   */
  function ValidateDescription(description: string): (r: Checked<string>)
    ensures r.WellFormed()
    ensures IsBlank(description) ==> r.error == Some(DescriptionEmpty)
    ensures !IsBlank(description) && |Trim(description)| < 3 ==> r.error == Some(DescriptionTooShort)
    ensures |Trim(description)| > 500 ==> r.error == Some(DescriptionTooLong)
    ensures r.ok <==> 3 <= |Trim(description)| <= 500
    ensures r.ok ==>
      var c := r.value.value;
      && 3 <= |c| <= 500
      && !IsSpace(c[0]) && !IsSpace(c[|c| - 1])
      && IsCollapsed(c)
    ensures r.ok ==> r.value.value == Join(Split(description), " ")
  {
    if IsBlank(description) then Reject(DescriptionEmpty)
    else
      var cleaned := Trim(description);
      if |cleaned| < 3 then Reject(DescriptionTooShort)
      else if |cleaned| > 500 then Reject(DescriptionTooLong)
      else
        CollapseKeepsLast(cleaned);
        CollapseKeepsThree(cleaned);
        CollapseIsCollapsed(cleaned);
        CollapseTrimIsJoin(description);
        Accept(Collapse(cleaned))
  }

  /** A cleaned description is accepted again, unchanged. */
  lemma {:induction false} DescriptionCleanIsFixedPoint(description: string)
    requires ValidateDescription(description).ok
    ensures var c := ValidateDescription(description).value.value;
      ValidateDescription(c) == Accept(c)
  {
    var c := ValidateDescription(description).value.value;
    TrimOfTrimmed(c);
    CollapseOfCollapsed(c);
  }

  // ---------------------------------------------------------------------
  // validate_category

  /** `validate_category`: a non-blank category that is exactly one of the allowed ones. */
  function ValidateCategory(category: string, validCategories: seq<string>): (r: Verdict)
    ensures r.WellFormed()
    ensures r.ok <==> !IsBlank(category) && category in validCategories
    ensures IsBlank(category) ==> r.error == Some(CategoryMissing)
    ensures !IsBlank(category) && category !in validCategories ==> r.error == Some(CategoryUnknown(validCategories))
  {
    if IsBlank(category) then Fail(CategoryMissing)
    else if category !in validCategories then Fail(CategoryUnknown(validCategories))
    else Pass
  }

  // ---------------------------------------------------------------------
  // validate_email

  predicate IsLocalChar(c: char) {
    IsLetter(c) || IsDigit(c) || c in "._%+-"
  }

  predicate IsDomainChar(c: char) {
    IsLetter(c) || IsDigit(c) || c == '.' || c == '-'
  }

  /**
   * `e` reads as L "@" X "." Y with the '@' at `i` and the '.' at `j`:
   * L and X non-empty, Y at least two letters.
   */
  predicate EmailSplitAt(e: string, i: nat, j: nat) {
    && 1 <= i && i + 2 <= j && j + 3 <= |e|
    && e[i] == '@' && e[j] == '.'
    && (forall k :: 0 <= k < i ==> IsLocalChar(e[k]))
    && (forall k :: i < k < j ==> IsDomainChar(e[k]))
    && (forall k :: j < k < |e| ==> IsLetter(e[k]))
  }

  /** `re.match(r'^[a-zA-Z0-9._%+-]+@[a-zA-Z0-9.-]+\.[a-zA-Z]{2,}$', e)` on stripped text. */
  predicate MatchesEmailPattern(e: string) {
    exists i: nat, j: nat | i < |e| && j < |e| :: EmailSplitAt(e, i, j)
  }

  function NormalizeEmail(email: string): string {
    Lower(Trim(email))
  }

  /**
   * `validate_email`: the stripped, lower-cased address must match the
   * pattern and be at most 254 characters; the pattern is checked first.
   */
  function ValidateEmail(email: string): (r: Verdict)
    ensures r.WellFormed()
    ensures r.ok <==> !IsBlank(email) && MatchesEmailPattern(NormalizeEmail(email)) && |NormalizeEmail(email)| <= 254
    ensures IsBlank(email) ==> r.error == Some(EmailRequired)
    ensures !IsBlank(email) && !MatchesEmailPattern(NormalizeEmail(email)) ==> r.error == Some(EmailMalformed)
    ensures !IsBlank(email) && MatchesEmailPattern(NormalizeEmail(email)) && |NormalizeEmail(email)| > 254 ==>
      r.error == Some(EmailTooLong)
  {
    if IsBlank(email) then Fail(EmailRequired)
    else
      var e := NormalizeEmail(email);
      if !MatchesEmailPattern(e) then Fail(EmailMalformed)
      else if |e| > 254 then Fail(EmailTooLong)
      else Pass
  }

  /**
   * An accepted address, once normalised, is at most 254 characters and
   * splits as L "@" X "." Y where that '@' is the only one and that '.'
   * the last one: the pattern's domain cannot hide a second '@', and its
   * top-level label is what follows the last point.
   */
  lemma {:induction false} AcceptedEmailShape(email: string)
    requires ValidateEmail(email).ok
    ensures var e := NormalizeEmail(email);
      && |e| <= 254
      && exists i: nat, j: nat | i < |e| && j < |e| ::
           && EmailSplitAt(e, i, j)
           && (forall k :: 0 <= k < |e| && e[k] == '@' ==> k == i)
           && (forall k :: j < k < |e| ==> e[k] != '.')
  {
    var e := NormalizeEmail(email);
    var i: nat, j: nat :| i < |e| && j < |e| && EmailSplitAt(e, i, j);
    SplitAtIsOnly(e, i, j);
  }

  /** In a text split as L "@" X "." Y, that '@' is the only one and no '.' follows that point. */
  lemma SplitAtIsOnly(e: string, i: nat, j: nat)
    requires EmailSplitAt(e, i, j)
    ensures forall k :: 0 <= k < |e| && e[k] == '@' ==> k == i
    ensures forall k :: j < k < |e| ==> e[k] != '.'
  {
    assert !IsLocalChar('@') && !IsDomainChar('@') && !IsLetter('@') && !IsLetter('.');
  }

  // ---------------------------------------------------------------------
  // sanitize_input

  /** The characters `sanitize_input` removes: 0x00-0x08, 0x0B, 0x0C, 0x0E-0x1F and 0x7F. */
  predicate IsControl(c: char) {
    var k := c as int;
    (0 <= k <= 8) || k == 11 || k == 12 || (14 <= k <= 31) || k == 127
  }

  predicate IsNotControl(c: char) {
    !IsControl(c)
  }

  /**
   * `sanitize_input`: strip, drop control characters, keep a prefix of
   * `maxLength` (Python slice semantics) and collapse whitespace runs.
   */
  function SanitizeInput(inputText: string, maxLength: int): (r: string)
    ensures inputText == [] ==> r == []
    ensures maxLength >= 0 ==> |r| <= maxLength
    ensures forall i :: 0 <= i < |r| ==> !IsControl(r[i])
    ensures IsCollapsed(r)
    ensures maxLength >= |inputText| ==> Split(r) == Split(Filter(inputText, IsNotControl))
  {
    if inputText == [] then []
    else
      var kept := Take(Filter(Trim(inputText), IsNotControl), maxLength);
      SanitizedWords(inputText, maxLength);
      CollapseIsCollapsed(kept);
      CollapseKeepsProperty(kept, IsNotControl);
      Collapse(kept)
  }

  /** A limit of at least zero only cuts off a tail: the result is a prefix of the uncut result. */
  lemma SanitizeKeepsFront(inputText: string, maxLength: int)
    requires 0 <= maxLength
    ensures SanitizeInput(inputText, maxLength) <= SanitizeInput(inputText, |inputText|)
  {
    if inputText != [] {
      var f := Filter(Trim(inputText), IsNotControl);
      assert |f| <= |Trim(inputText)| <= |inputText|;
      TakeAll(f, |inputText|);
      assert Take(f, maxLength) <= f;
      CollapsePrefix(Take(f, maxLength), f);
    }
  }

  /** When nothing is cut off, the kept text has the words of the input with control characters dropped. */
  lemma SanitizedWords(inputText: string, maxLength: int)
    ensures var kept := Take(Filter(Trim(inputText), IsNotControl), maxLength);
            && Split(Collapse(kept)) == Split(kept)
            && (maxLength >= |inputText| ==> Split(kept) == Split(Filter(inputText, IsNotControl)))
  {
    var f := Filter(Trim(inputText), IsNotControl);
    var kept := Take(f, maxLength);
    SplitOfCollapse(kept);
    if maxLength >= |inputText| {
      assert |f| <= |Trim(inputText)| <= |inputText|;
      TakeAll(f, maxLength);
      SplitOfFilterTrim(inputText, IsNotControl);
    }
  }

  // ---------------------------------------------------------------------
  // validate_numeric_range and validate_text_length

  /** `validate_numeric_range`: the value must convert to a number within `[minVal, maxVal]`. */
  function ValidateNumericRange(value: Input, minVal: real, maxVal: real): (r: Verdict)
    ensures r.WellFormed()
    ensures r.ok <==> ToFloat(value).Some? && minVal <= ToFloat(value).value <= maxVal
    ensures ToFloat(value).None? ==> r.error == Some(NotNumeric)
    ensures ToFloat(value).Some? && ToFloat(value).value < minVal ==> r.error == Some(BelowMinimum(minVal))
    ensures ToFloat(value).Some? && minVal <= ToFloat(value).value && ToFloat(value).value > maxVal ==>
      r.error == Some(AboveMaximum(maxVal))
  {
    match ToFloat(value)
    case None => Fail(NotNumeric)
    case Some(x) =>
      if x < minVal then Fail(BelowMinimum(minVal))
      else if x > maxVal then Fail(AboveMaximum(maxVal))
      else Pass
  }

  /** `validate_text_length`: the stripped length must lie within `[minLength, maxLength]`, minimum first. */
  function ValidateTextLength(text: string, minLength: int, maxLength: int): (r: Verdict)
    ensures r.WellFormed()
    ensures r.ok <==> minLength <= |Trim(text)| <= maxLength
    ensures |Trim(text)| < minLength ==> r.error == Some(TextTooShort(minLength))
    ensures minLength <= |Trim(text)| && |Trim(text)| > maxLength ==> r.error == Some(TextTooLong(maxLength))
  {
    var length := |Trim(text)|;
    if length < minLength then Fail(TextTooShort(minLength))
    else if length > maxLength then Fail(TextTooLong(maxLength))
    else Pass
  }

  // ---------------------------------------------------------------------
  // is_safe_filename

  const ReservedChars: string := "<>:\"|?*"

  /**
   * `is_safe_filename`: non-blank, no "..", no '/' or '\', none of the
   * reserved characters, at most 255 characters.
   */
  function IsSafeFilename(filename: string): (r: bool)
    ensures r <==>
      && !IsBlank(filename)
      && !Contains(filename, "..")
      && '/' !in filename && '\\' !in filename
      && (forall c :: c in ReservedChars ==> c !in filename)
      && |filename| <= 255
  {
    if IsBlank(filename) then false
    else if Contains(filename, "..") || '/' in filename || '\\' in filename then false
    else if exists c | c in ReservedChars :: c in filename then false
    else |filename| <= 255
  }

  /** The text after the last '/' of a path. */
  function LastComponent(path: string): string {
    match LastIndexOf(path, '/')
    case None => path
    case Some(k) => path[k + 1..]
  }

  /**
   * A safe name placed under a directory stays the last component of the
   * path and is not a parent reference: it cannot climb out of the directory.
   */
  lemma {:induction false} SafeNameStaysInDirectory(dir: string, name: string)
    requires IsSafeFilename(name)
    ensures LastComponent(dir + "/" + name) == name
    ensures name != ".."
  {
    var path := dir + "/" + name;
    var k := |dir|;
    assert path[k] == '/';
    assert path[k + 1..] == name;
    assert '/' !in path[k + 1..];
    var r := LastIndexOf(path, '/');
    assert r.Some?;
    var m := r.value;
    assert m == k;
    assert OccursAt("..", "..", 0);
  }

  // ---------------------------------------------------------------------
  // validate_currency_amount

  /** Strip, then remove one leading currency symbol and strip again. */
  function StripSymbol(s: string, symbol: string): string {
    var t := Trim(s);
    if StartsWith(t, symbol) then Trim(t[|symbol|..]) else t
  }

  predicate IsNotComma(c: char) {
    c != ','
  }

  /** The text `validate_currency_amount` hands to `Decimal`: symbol and commas removed. */
  function CleanCurrency(s: string, symbol: string): string {
    Filter(StripSymbol(s, symbol), IsNotComma)
  }

  /**
   * `validate_currency_amount`: after removing the symbol and commas, the
   * rest must be a numeral worth more than zero with at most two written
   * fractional digits (a trailing zero counts).
   */
  function ValidateCurrencyAmount(amountStr: string, currencySymbol: string): (r: Checked<real>)
    ensures r.WellFormed()
    ensures IsBlank(amountStr) ==> r == Reject(AmountRequired)
    ensures !IsBlank(amountStr) ==>
      match ParseNumber(CleanCurrency(amountStr, currencySymbol))
      case None => r == Reject(AmountInvalid)
      case Some(n) =>
        && WellFormed(n)
        && (Value(n) <= 0.0 ==> r == Reject(AmountNotPositive))
        && (Value(n) > 0.0 && Exponent(n) < -2 ==> r == Reject(TooManyDecimals))
        && (Value(n) > 0.0 && |n.fraction| <= 2 ==> r == Accept(Value(n)))
  {
    if IsBlank(amountStr) then Reject(AmountRequired)
    else
      var cleaned := CleanCurrency(amountStr, currencySymbol);
      match ParseNumber(cleaned)
      case None => Reject(AmountInvalid)
      case Some(n) =>
        if Value(n) <= 0.0 then Reject(AmountNotPositive)
        else if Exponent(n) < -2 then Reject(TooManyDecimals)
        else Accept(Value(n))
  }

  /** A symbol, a space and a stripped amount: removing the symbol leaves the amount. */
  lemma {:induction false} StripSymbolSpace(symbol: string, body: string)
    requires symbol != [] && !IsSpace(symbol[0])
    requires body != [] && !IsSpace(body[0]) && !IsSpace(body[|body| - 1])
    ensures StripSymbol(symbol + " " + body, symbol) == body
  {
    var u := " " + body;
    var s := symbol + u;
    assert symbol + " " + body == s;
    assert s[..|symbol|] == symbol;
    assert s[|s| - 1] == body[|body| - 1];
    TrimOfTrimmed(s);
    assert s[|symbol|..] == u;
    assert u[1..] == body;
    assert LeadingSpaces(u) == 1;
    assert TrimStart(u) == body;
    TrimEndOfNonSpace(body);
  }

  /** Removing the one comma of `a + "," + b`. */
  lemma {:induction false} DropComma(a: string, b: string)
    requires ',' !in a && ',' !in b
    ensures Filter(a + "," + b, IsNotComma) == a + b
  {
    FilterConcat(a + ",", b, IsNotComma);
    FilterConcat(a, ",", IsNotComma);
    assert forall i :: 0 <= i < |a| ==> IsNotComma(a[i]);
    FilterKeepsAll(a, IsNotComma);
    assert forall i :: 0 <= i < |b| ==> IsNotComma(b[i]);
    FilterKeepsAll(b, IsNotComma);
    assert Filter(",", IsNotComma) == [];
    assert Filter(a + ",", IsNotComma) == a + [];
    assert a + [] == a;
  }

  /**
   * Once the cleaned text is known to read as the numeral `n`, the verdict
   * is decided by its value and its count of written decimals.
   */
  lemma CurrencyVerdictOfNumeral(amountStr: string, currencySymbol: string, n: Numeral)
    requires !IsBlank(amountStr)
    requires ParseNumber(CleanCurrency(amountStr, currencySymbol)) == Some(n)
    ensures ValidateCurrencyAmount(amountStr, currencySymbol) ==
      if Value(n) <= 0.0 then Reject(AmountNotPositive)
      else if |n.fraction| > 2 then Reject(TooManyDecimals)
      else Accept(Value(n))
  {
  }

  /** "Rs. 1,234.56" is accepted as 1234.56: symbol and comma are ignored. */
  lemma TwoDecimalsAccepted()
    ensures ValidateCurrencyAmount("Rs. 1,234.56", "Rs.") == Accept(1234.56)
  {
    TwoDecimalsNotBlank();
    TwoDecimalsCleanParsed();
    TwoDecimalsValue();
    CurrencyVerdictOfNumeral("Rs. 1,234.56", "Rs.", Numeral(Unsigned, "1234", true, "56"));
  }

  lemma TwoDecimalsNotBlank()
    ensures !IsBlank("Rs. 1,234.56")
  {
    TrimOfTrimmed("Rs. 1,234.56");
  }

  lemma TwoDecimalsCleanParsed()
    ensures ParseNumber(CleanCurrency("Rs. 1,234.56", "Rs.")) == Some(Numeral(Unsigned, "1234", true, "56"))
  {
    TwoDecimalsCleaned();
    TwoDecimalsParsed();
  }

  lemma TwoDecimalsCleaned()
    ensures CleanCurrency("Rs. 1,234.56", "Rs.") == "1234.56"
  {
    TwoDecimalsStripped();
    TwoDecimalsCommaDropped();
  }

  lemma TwoDecimalsStripped()
    ensures StripSymbol("Rs. 1,234.56", "Rs.") == "1,234.56"
  {
    assert "Rs. 1,234.56" == "Rs." + " " + "1,234.56";
    StripSymbolSpace("Rs.", "1,234.56");
  }

  lemma TwoDecimalsCommaDropped()
    ensures Filter("1,234.56", IsNotComma) == "1234.56"
  {
    assert "1,234.56" == "1" + "," + "234.56";
    DropComma("1", "234.56");
    assert "1" + "234.56" == "1234.56";
  }

  lemma TwoDecimalsParsed()
    ensures ParseNumber("1234.56") == Some(Numeral(Unsigned, "1234", true, "56"))
  {
    var n := Numeral(Unsigned, "1234", true, "56");
    assert Render(n) == "1234" + "." + "56" == "1234.56";
    ParseNumberRender(n);
  }

  lemma TwoDecimalsValue()
    ensures Value(Numeral(Unsigned, "1234", true, "56")) == 1234.56
  {
    assert "1234"[..3] == "123" && "123"[..2] == "12" && "12"[..1] == "1" && "1"[..0] == "";
    assert DigitsValue("1234") == 1234;
    assert "56"[..1] == "5" && "5"[..0] == "";
    assert DigitsValue("56") == 56;
    assert Pow10(2) == 100;
  }

  /** A written trailing zero counts as a decimal place: "1.500" is refused. */
  lemma TrailingZeroCounts()
    ensures ValidateCurrencyAmount("1.500", "Rs.") == Reject(TooManyDecimals)
  {
    TrailingZeroFacts();
    CurrencyVerdictOfNumeral("1.500", "Rs.", Numeral(Unsigned, "1", true, "500"));
  }

  lemma TrailingZeroFacts()
    ensures !IsBlank("1.500")
    ensures ParseNumber(CleanCurrency("1.500", "Rs.")) == Some(Numeral(Unsigned, "1", true, "500"))
    ensures Value(Numeral(Unsigned, "1", true, "500")) > 0.0
  {
    TrailingZeroNotBlank();
    TrailingZeroCleanParsed();
    TrailingZeroPositive();
  }

  lemma TrailingZeroNotBlank()
    ensures !IsBlank("1.500")
  {
    TrimOfTrimmed("1.500");
  }

  lemma TrailingZeroCleanParsed()
    ensures ParseNumber(CleanCurrency("1.500", "Rs.")) == Some(Numeral(Unsigned, "1", true, "500"))
  {
    TrailingZeroCleaned();
    TrailingZeroParsed();
  }

  lemma TrailingZeroPositive()
    ensures Value(Numeral(Unsigned, "1", true, "500")) > 0.0
  {
    assert "1"[..0] == "";
    assert DigitsValue("1") == 1;
  }

  lemma TrailingZeroCleaned()
    ensures CleanCurrency("1.500", "Rs.") == "1.500"
  {
    TrimOfTrimmed("1.500");
    assert !StartsWith("1.500", "Rs.");
    assert forall i :: 0 <= i < |"1.500"| ==> IsNotComma("1.500"[i]);
    FilterKeepsAll("1.500", IsNotComma);
  }

  lemma TrailingZeroParsed()
    ensures ParseNumber("1.500") == Some(Numeral(Unsigned, "1", true, "500"))
  {
    var n := Numeral(Unsigned, "1", true, "500");
    assert Render(n) == "1" + "." + "500" == "1.500";
    ParseNumberRender(n);
  }
}
