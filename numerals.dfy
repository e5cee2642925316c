/**
 * Plain decimal numerals, the part of the grammar of Python's `float(str)`
 * and `Decimal(str)` the validators depend on: an optional sign, digits,
 * and optionally a point followed by more digits, with at least one digit
 * in all. Both constructors ignore surrounding whitespace. A numeral keeps
 * the fractional digits exactly as written, which is what
 * `Decimal.as_tuple().exponent` reports.
 */
module Numerals {
  import opened Wrappers
  import opened Strings

  datatype Sign = Unsigned | Plus | Minus

  datatype Numeral = Numeral(sign: Sign, whole: string, point: bool, fraction: string)

  /** The numerals the grammar admits. */
  predicate WellFormed(n: Numeral) {
    && AllDigits(n.whole)
    && AllDigits(n.fraction)
    && (!n.point ==> n.fraction == [])
    && |n.whole| + |n.fraction| >= 1
  }

  function SignText(s: Sign): string {
    match s
    case Unsigned => ""
    case Plus => "+"
    case Minus => "-"
  }

  /** The text of a numeral, exactly as written. */
  function Render(n: Numeral): string {
    SignText(n.sign) + n.whole + (if n.point then "." + n.fraction else "")
  }

  function LeadingSign(s: string): Sign {
    if s != [] && s[0] == '-' then Minus else if s != [] && s[0] == '+' then Plus else Unsigned
  }

  /** Recognises the numeral grammar. */
  function ParseNumeral(s: string): (r: Option<Numeral>)
    ensures r.Some? ==> WellFormed(r.value)
  {
    var sign := LeadingSign(s);
    var body := if sign == Unsigned then s else s[1..];
    ParseUnsignedWellFormed(sign, body);
    ParseUnsigned(sign, body)
  }

  /** Recognises digits, optionally a point and more digits, after the sign. */
  function ParseUnsigned(sign: Sign, body: string): Option<Numeral> {
    var k := DigitCount(body);
    var whole := body[..k];
    var rest := body[k..];
    if rest == [] then
      if whole == [] then None else Some(Numeral(sign, whole, false, []))
    else if rest[0] != '.' || DigitCount(rest[1..]) < |rest| - 1 || (whole == [] && |rest| == 1) then None
    else Some(Numeral(sign, whole, true, rest[1..]))
  }

  lemma {:induction false} ParseUnsignedWellFormed(sign: Sign, body: string)
    ensures ParseUnsigned(sign, body).Some? ==> WellFormed(ParseUnsigned(sign, body).value)
  {
  }

  /** What is recognised is a well-formed numeral whose text is the input. */
  lemma {:induction false} ParseSound(s: string)
    ensures ParseNumeral(s).Some? ==> Render(ParseNumeral(s).value) == s
  {
    var sign := LeadingSign(s);
    var body := if sign == Unsigned then s else s[1..];
    assert s == SignText(sign) + body;
    ParseUnsignedSound(sign, body);
  }

  lemma {:induction false} ParseUnsignedSound(sign: Sign, body: string)
    ensures ParseUnsigned(sign, body).Some? ==> Render(ParseUnsigned(sign, body).value) == SignText(sign) + body
  {
    var k := DigitCount(body);
    var whole := body[..k];
    var rest := body[k..];
    if ParseUnsigned(sign, body).Some? {
      if rest == [] {
        assert whole == body;
        assert ParseUnsigned(sign, body) == Some(Numeral(sign, whole, false, []));
        RenderOf(Numeral(sign, whole, false, []));
      } else {
        var fraction := rest[1..];
        assert body == whole + rest && rest == "." + fraction;
        assert ParseUnsigned(sign, body) == Some(Numeral(sign, whole, true, fraction));
        RenderOf(Numeral(sign, whole, true, fraction));
      }
    }
  }

  /** The text of a numeral as the sign followed by the unsigned part. */
  lemma RenderOf(n: Numeral)
    ensures Render(n) == SignText(n.sign) + (n.whole + (if n.point then "." + n.fraction else ""))
  {
  }

  /** Every well-formed numeral is recognised from its own text. */
  lemma {:induction false} ParseRender(n: Numeral)
    requires WellFormed(n)
    ensures ParseNumeral(Render(n)) == Some(n)
  {
    var s := Render(n);
    var tail := if n.point then "." + n.fraction else "";
    var body := n.whole + tail;
    assert s == SignText(n.sign) + body;
    if n.sign == Unsigned {
      assert s == body;
      assert body != [] && (body[0] == '.' || IsDigit(body[0]));
    } else {
      assert s[1..] == body;
    }
    assert LeadingSign(s) == n.sign;
    ParseUnsignedRender(n, tail);
  }

  lemma {:induction false} ParseUnsignedRender(n: Numeral, tail: string)
    requires WellFormed(n)
    requires tail == if n.point then "." + n.fraction else ""
    ensures ParseUnsigned(n.sign, n.whole + tail) == Some(n)
  {
    var body := n.whole + tail;
    DigitCountOfDigits(n.whole, tail);
    assert body[..|n.whole|] == n.whole;
    assert body[|n.whole|..] == tail;
    if n.point {
      assert tail[1..] == n.fraction;
    }
  }

  /** `float(s)` / `Decimal(s)` over this grammar: whitespace around the numeral is ignored. */
  function ParseNumber(s: string): Option<Numeral> {
    ParseNumeral(Trim(s))
  }

  /** Rendering then parsing with surrounding whitespace ignored also gives the numeral back. */
  lemma {:induction false} ParseNumberRender(n: Numeral)
    requires WellFormed(n)
    ensures ParseNumber(Render(n)) == Some(n)
  {
    var s := Render(n);
    var tail := if n.point then "." + n.fraction else "";
    assert s == SignText(n.sign) + (n.whole + tail);
    assert s != [];
    assert s[|s| - 1] == '.' || IsDigit(s[|s| - 1]);
    assert s[0] == '+' || s[0] == '-' || s[0] == '.' || IsDigit(s[0]);
    TrimOfTrimmed(s);
    ParseRender(n);
  }

  /** The exact value of a numeral. */
  function Value(n: Numeral): real
    requires WellFormed(n)
  {
    var magnitude := DigitsValue(n.whole) as real + DigitsValue(n.fraction) as real / Pow10(|n.fraction|) as real;
    if n.sign == Minus then -magnitude else magnitude
  }

  /** `Decimal.as_tuple().exponent` of a numeral, as minus the number of written fractional digits. */
  function Exponent(n: Numeral): int {
    -|n.fraction|
  }

  /** The digits `str(k)` writes form a numeral worth `k` with no fractional digits. */
  lemma ParseNatText(k: nat)
    ensures ParseNumeral(NatText(k)) == Some(Numeral(Unsigned, NatText(k), false, ""))
    ensures Value(ParseNumeral(NatText(k)).value) == k as real
  {
    var n := Numeral(Unsigned, NatText(k), false, "");
    assert Render(n) == NatText(k);
    ParseRender(n);
    NatTextValue(k);
  }
}
