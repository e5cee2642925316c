/**
 * The Python string built-ins the toolkit relies on, over ASCII text:
 * `str.isspace` / the regex class `\s`, `str.isdigit`, `lower`, `strip`,
 * `split()`, `' '.join`, `re.sub(r'\s+', ' ', ...)`, `in` on substrings,
 * `startswith`, `filter`, prefix slices `s[:n]` (negative `n` included)
 * and `str(int)`.
 */
module Strings {
  import opened Wrappers

  // ---------------------------------------------------------------------
  // Character classes

  /** ASCII whitespace as `str.isspace()` and `\s` see it: 9-13, 28-31 and 32. */
  predicate IsSpace(c: char) {
    var k := c as int;
    k == 32 || 9 <= k <= 13 || 28 <= k <= 31
  }

  predicate IsDigit(c: char) {
    '0' <= c <= '9'
  }

  predicate IsUpper(c: char) {
    'A' <= c <= 'Z'
  }

  predicate IsLowerLetter(c: char) {
    'a' <= c <= 'z'
  }

  predicate IsLetter(c: char) {
    IsUpper(c) || IsLowerLetter(c)
  }

  function LowerChar(c: char): char {
    if IsUpper(c) then (c as int + 32) as char else c
  }

  function UpperChar(c: char): char {
    if IsLowerLetter(c) then (c as int - 32) as char else c
  }

  predicate AllSatisfy(s: string, p: char -> bool) {
    forall i :: 0 <= i < |s| ==> p(s[i])
  }

  predicate AllDigits(s: string) {
    forall i :: 0 <= i < |s| ==> IsDigit(s[i])
  }

  predicate NoSpace(s: string) {
    forall i :: 0 <= i < |s| ==> !IsSpace(s[i])
  }

  // ---------------------------------------------------------------------
  // Case

  /** `s.lower()` on ASCII. */
  function Lower(s: string): (r: string)
    ensures |r| == |s|
    ensures forall i :: 0 <= i < |s| ==> r[i] == LowerChar(s[i])
  {
    if s == [] then [] else [LowerChar(s[0])] + Lower(s[1..])
  }

  lemma LowerConcat(a: string, b: string)
    ensures Lower(a + b) == Lower(a) + Lower(b)
  {
  }

  // ---------------------------------------------------------------------
  // Stripping

  /** The number of whitespace characters `s` starts with. */
  function LeadingSpaces(s: string): (k: nat)
    ensures k <= |s|
    ensures forall i :: 0 <= i < k ==> IsSpace(s[i])
    ensures k < |s| ==> !IsSpace(s[k])
  {
    if s != [] && IsSpace(s[0]) then 1 + LeadingSpaces(s[1..]) else 0
  }

  /** The number of whitespace characters `s` ends with. */
  function TrailingSpaces(s: string): (k: nat)
    ensures k <= |s|
    ensures forall i :: |s| - k <= i < |s| ==> IsSpace(s[i])
    ensures k < |s| ==> !IsSpace(s[|s| - k - 1])
  {
    if s != [] && IsSpace(s[|s| - 1]) then 1 + TrailingSpaces(s[..|s| - 1]) else 0
  }

  /** `s.lstrip()`: what is left after the leading whitespace. */
  function TrimStart(s: string): string {
    s[LeadingSpaces(s)..]
  }

  /** `s.rstrip()`: what is left before the trailing whitespace. */
  function TrimEnd(s: string): string {
    s[..|s| - TrailingSpaces(s)]
  }

  /**
   * `s.strip()`: the text between a whitespace prefix and a whitespace
   * suffix, with no whitespace left at either end.
   */
  function Trim(s: string): (r: string)
    ensures |r| <= |s|
    ensures r == [] || (!IsSpace(r[0]) && !IsSpace(r[|r| - 1]))
    ensures exists i, j :: 0 <= i <= j <= |s| && r == s[i..j]
                           && forall k :: (0 <= k < i || j <= k < |s|) ==> IsSpace(s[k])
  {
    var a := LeadingSpaces(s);
    var t := s[a..];
    var b := TrailingSpaces(t);
    assert forall k :: |s| - b <= k < |s| ==> s[k] == t[k - a];
    assert TrimEnd(t) == s[a..|s| - b];
    TrimEnd(TrimStart(s))
  }

  /** `not s or not s.strip()`: the string is empty or all whitespace. */
  predicate IsBlank(s: string) {
    Trim(s) == []
  }

  lemma TrimStartOfNonSpace(s: string)
    requires s == [] || !IsSpace(s[0])
    ensures TrimStart(s) == s
  {
  }

  lemma TrimEndOfNonSpace(s: string)
    requires s == [] || !IsSpace(s[|s| - 1])
    ensures TrimEnd(s) == s
  {
  }

  /** Stripping a string whose two ends are not whitespace changes nothing. */
  lemma TrimOfTrimmed(s: string)
    requires s == [] || (!IsSpace(s[0]) && !IsSpace(s[|s| - 1]))
    ensures Trim(s) == s
  {
    TrimStartOfNonSpace(s);
    TrimEndOfNonSpace(s);
  }

  /** Every character of the stripped string occurs in the original. */
  lemma TrimChars(s: string)
    ensures forall i :: 0 <= i < |Trim(s)| ==> Trim(s)[i] in s
  {
    var k := LeadingSpaces(s);
    forall i | 0 <= i < |Trim(s)| ensures Trim(s)[i] in s {
      assert Trim(s)[i] == s[k + i];
    }
  }

  // ---------------------------------------------------------------------
  // Whitespace runs

  /**
   * Text that `re.sub(r'\s+', ' ', ...)` leaves unchanged: its only
   * whitespace character is ' ' and no two whitespace characters touch.
   */
  predicate IsCollapsed(s: string) {
    && (forall i :: 0 <= i < |s| && IsSpace(s[i]) ==> s[i] == ' ')
    && (forall i :: 0 <= i < |s| - 1 ==> NotTwoSpaces(s, i))
  }

  /** The characters at `i` and `i + 1` are not both whitespace. */
  predicate NotTwoSpaces(s: string, i: nat)
    requires i + 1 < |s|
  {
    !(IsSpace(s[i]) && IsSpace(s[i + 1]))
  }

  /** `re.sub(r'\s+', ' ', s)`: every maximal whitespace run becomes one ' '. */
  function Collapse(s: string): (r: string)
    ensures |r| <= |s|
    ensures r == [] <==> s == []
    ensures s != [] && !IsSpace(s[0]) ==> r[0] == s[0]
    ensures s != [] && IsSpace(s[0]) ==> r[0] == ' '
    decreases |s|
  {
    if s == [] then []
    else if IsSpace(s[0]) then [' '] + Collapse(TrimStart(s[1..]))
    else [s[0]] + Collapse(s[1..])
  }

  /** Stripping the front of a prefix gives a prefix of the stripped text. */
  lemma {:induction false} TrimStartPrefix(p: string, s: string)
    requires p <= s
    ensures TrimStart(p) <= TrimStart(s)
    decreases |p|
  {
    if p != [] {
      assert s[0] == p[0];
      if IsSpace(p[0]) {
        assert p[1..] <= s[1..];
        TrimStartPrefix(p[1..], s[1..]);
        assert LeadingSpaces(p) == 1 + LeadingSpaces(p[1..]);
        assert TrimStart(p) == TrimStart(p[1..]);
        assert LeadingSpaces(s) == 1 + LeadingSpaces(s[1..]);
        assert TrimStart(s) == TrimStart(s[1..]);
      } else {
        assert TrimStart(p) == p[0..] == p;
        assert TrimStart(s) == s[0..] == s;
      }
    }
  }

  /** Collapsing a prefix gives a prefix of the collapsed text. */
  lemma {:induction false} CollapsePrefix(p: string, s: string)
    requires p <= s
    ensures Collapse(p) <= Collapse(s)
    decreases |p|
  {
    if p != [] {
      assert s[0] == p[0];
      assert p[1..] <= s[1..];
      if IsSpace(p[0]) {
        TrimStartPrefix(p[1..], s[1..]);
        CollapsePrefix(TrimStart(p[1..]), TrimStart(s[1..]));
      } else {
        CollapsePrefix(p[1..], s[1..]);
      }
    }
  }

  /** What `Collapse` returns is collapsed. */
  lemma {:induction false} CollapseIsCollapsed(s: string)
    ensures IsCollapsed(Collapse(s))
    decreases |s|
  {
    if s != [] {
      var t := if IsSpace(s[0]) then TrimStart(s[1..]) else s[1..];
      CollapseIsCollapsed(t);
      var r := Collapse(s);
      var c := Collapse(t);
      assert r == [r[0]] + c;
      assert IsSpace(s[0]) ==> t == [] || !IsSpace(t[0]);
      forall i | 0 <= i < |r| - 1 ensures NotTwoSpaces(r, i) {
        if i > 0 {
          assert NotTwoSpaces(c, i - 1);
          assert r[i] == c[i - 1] && r[i + 1] == c[i];
        }
      }
    }
  }

  /** A property of characters that ' ' and every character of `s` have, every character of the collapsed text has. */
  lemma {:induction false} CollapseKeepsProperty(s: string, p: char -> bool)
    requires p(' ')
    requires forall i :: 0 <= i < |s| ==> p(s[i])
    ensures forall i :: 0 <= i < |Collapse(s)| ==> p(Collapse(s)[i])
    decreases |s|
  {
    if s != [] {
      var t := if IsSpace(s[0]) then TrimStart(s[1..]) else s[1..];
      assert forall i :: 0 <= i < |t| ==> t[i] == s[|s| - |t| + i];
      CollapseKeepsProperty(t, p);
      var r := Collapse(s);
      assert r == [r[0]] + Collapse(t);
      forall i | 0 <= i < |r| ensures p(r[i]) {
        if i > 0 {
          assert r[i] == Collapse(t)[i - 1];
        }
      }
    }
  }

  /** A non-whitespace last character survives collapsing, and stays last. */
  lemma {:induction false} CollapseKeepsLast(s: string)
    requires s != [] && !IsSpace(s[|s| - 1])
    ensures |Collapse(s)| > 0 && Collapse(s)[|Collapse(s)| - 1] == s[|s| - 1]
    decreases |s|
  {
    if IsSpace(s[0]) {
      var t := TrimStart(s[1..]);
      assert s[1..][|s| - 2] == s[|s| - 1];
      assert t != [] && t[|t| - 1] == s[|s| - 1];
      CollapseKeepsLast(t);
    } else if |s| > 1 {
      CollapseKeepsLast(s[1..]);
    }
  }

  /** Collapsing text that is already collapsed changes nothing. */
  lemma {:induction false} CollapseOfCollapsed(s: string)
    requires IsCollapsed(s)
    ensures Collapse(s) == s
    decreases |s|
  {
    if s != [] {
      forall i | 0 <= i < |s| - 2 ensures NotTwoSpaces(s[1..], i) {
        assert NotTwoSpaces(s, i + 1);
      }
      assert IsCollapsed(s[1..]);
      if IsSpace(s[0]) {
        assert |s| > 1 ==> NotTwoSpaces(s, 0);
        TrimStartOfNonSpace(s[1..]);
      }
      CollapseOfCollapsed(s[1..]);
    }
  }

  /**
   * Collapsing a stripped text of at least three characters keeps at least
   * three: its two non-whitespace ends survive, and anything between them
   * leaves at least one character.
   */
  lemma CollapseKeepsThree(s: string)
    requires |s| >= 3 && !IsSpace(s[0]) && !IsSpace(s[|s| - 1])
    ensures |Collapse(s)| >= 3
  {
    var t := s[1..];
    assert t[|t| - 1] == s[|s| - 1];
    assert Collapse(s) == [s[0]] + Collapse(t);
    if IsSpace(t[0]) {
      var u := TrimStart(t[1..]);
      assert t[1..][|t| - 2] == s[|s| - 1];
      assert u != [];
      assert Collapse(t) == [' '] + Collapse(u);
    } else {
      var u := t[1..];
      assert u[|u| - 1] == s[|s| - 1];
      assert Collapse(t) == [t[0]] + Collapse(u);
    }
  }

  // ---------------------------------------------------------------------
  // Words

  /** A word of `split()`: non-empty, without whitespace. */
  predicate IsWord(w: string) {
    w != [] && NoSpace(w)
  }

  /** The length of the longest prefix of `s` that holds no whitespace. */
  function WordLength(s: string): (k: nat)
    ensures k <= |s|
    ensures forall i :: 0 <= i < k ==> !IsSpace(s[i])
    ensures k < |s| ==> IsSpace(s[k])
  {
    if s == [] || IsSpace(s[0]) then 0 else 1 + WordLength(s[1..])
  }

  /** The longest prefix of `s` that holds no whitespace. */
  function WordPrefix(s: string): string {
    s[..WordLength(s)]
  }

  /** `s.split()`: the maximal runs of non-whitespace characters, in order. */
  function Split(s: string): (ws: seq<string>)
    decreases |s|
  {
    var t := TrimStart(s);
    if t == [] then [] else
      var w := WordPrefix(t);
      [w] + Split(t[|w|..])
  }

  /** Every piece `split()` returns is a word. */
  lemma {:induction false} SplitGivesWords(s: string)
    ensures forall k :: 0 <= k < |Split(s)| ==> IsWord(Split(s)[k])
    decreases |s|
  {
    var t := TrimStart(s);
    if t != [] {
      var w := WordPrefix(t);
      var rest := Split(t[|w|..]);
      SplitGivesWords(t[|w|..]);
      assert Split(s) == [w] + rest;
      assert IsWord(w);
      forall k | 0 <= k < |Split(s)| ensures IsWord(Split(s)[k]) {
        if k > 0 {
          assert Split(s)[k] == rest[k - 1];
        }
      }
    }
  }

  /** `sep.join(ws)`. */
  function Join(ws: seq<string>, sep: string): string {
    if |ws| == 0 then ""
    else if |ws| == 1 then ws[0]
    else ws[0] + sep + Join(ws[1..], sep)
  }

  lemma JoinCons(w: string, ws: seq<string>, sep: string)
    requires ws != []
    ensures Join([w] + ws, sep) == w + sep + Join(ws, sep)
  {
    assert ([w] + ws)[1..] == ws;
  }

  /** Appending a word to a non-empty list adds the separator and that word at the end. */
  lemma {:induction false} JoinSnoc(ws: seq<string>, w: string, sep: string)
    requires ws != []
    ensures Join(ws + [w], sep) == Join(ws, sep) + sep + w
    decreases |ws|
  {
    if |ws| == 1 {
      assert ws + [w] == [ws[0], w];
    } else {
      assert (ws + [w])[1..] == ws[1..] + [w];
      JoinSnoc(ws[1..], w, sep);
    }
  }

  lemma WordPrefixOfWord(w: string, rest: string)
    requires NoSpace(w)
    requires rest == [] || IsSpace(rest[0])
    ensures WordPrefix(w + rest) == w
  {
    var s := w + rest;
    var r := WordPrefix(s);
    assert forall i :: 0 <= i < |w| ==> s[i] == w[i];
    assert |w| < |s| ==> s[|w|] == rest[0];
  }

  /**
   * Splitting words joined by single spaces gives the words back, as long
   * as each word is non-empty and holds no whitespace.
   */
  lemma {:induction false} SplitJoin(ws: seq<string>)
    requires forall k :: 0 <= k < |ws| ==> IsWord(ws[k])
    ensures Split(Join(ws, " ")) == ws
  {
    if |ws| == 1 {
      var w := ws[0];
      TrimStartOfNonSpace(w);
      WordPrefixOfWord(w, []);
      assert w + [] == w;
      assert w[|w|..] == [];
      assert Split(w) == [w] + Split([]);
    } else if |ws| > 1 {
      var w := ws[0];
      var rest := Join(ws[1..], " ");
      var s := w + " " + rest;
      assert s == w + (" " + rest);
      assert s[0] == w[0];
      TrimStartOfNonSpace(s);
      WordPrefixOfWord(w, " " + rest);
      assert s[|w|..] == " " + rest;
      assert TrimStart(" " + rest) == TrimStart(rest);
      SplitJoin(ws[1..]);
      assert Split(" " + rest) == Split(rest);
      assert Join(ws, " ") == s;
      assert Split(s) == [w] + Split(" " + rest);
      assert ws == [w] + ws[1..];
    }
  }

  /** A whitespace character in front does not change the words. */
  lemma SplitSpaceFront(s: string)
    requires s != [] && IsSpace(s[0])
    ensures Split(s) == Split(s[1..])
  {
    assert LeadingSpaces(s) == 1 + LeadingSpaces(s[1..]);
    assert TrimStart(s) == TrimStart(s[1..]);
  }

  /** Leading whitespace does not change the words. */
  lemma SplitOfTrimStart(s: string)
    ensures Split(TrimStart(s)) == Split(s)
  {
    TrimStartOfNonSpace(TrimStart(s));
  }

  /**
   * The words of a text that starts with the non-whitespace character `c`:
   * `c` is a word of its own when whitespace or the end follows it, and
   * otherwise the first letter of the first word of the rest.
   */
  lemma SplitCons(c: char, s: string)
    requires !IsSpace(c)
    ensures s == [] || IsSpace(s[0]) ==> Split([c] + s) == [[c]] + Split(s)
    ensures s != [] && !IsSpace(s[0]) ==> |Split(s)| > 0 && Split([c] + s) == [[c] + Split(s)[0]] + Split(s)[1..]
  {
    var t := [c] + s;
    assert t[1..] == s;
    TrimStartOfNonSpace(t);
    var w := WordPrefix(s);
    assert WordLength(t) == 1 + WordLength(s);
    assert WordPrefix(t) == [c] + w;
    assert t[|WordPrefix(t)|..] == s[|w|..];
    assert Split(t) == [[c] + w] + Split(s[|w|..]);
    if s != [] && !IsSpace(s[0]) {
      TrimStartOfNonSpace(s);
      assert Split(s) == [w] + Split(s[|w|..]);
    }
  }

  /** A whitespace character at the end does not change the words. */
  lemma {:induction false} SplitSpaceBack(s: string, c: char)
    requires IsSpace(c)
    ensures Split(s + [c]) == Split(s)
    decreases |s|
  {
    if s == [] {
      assert LeadingSpaces([c]) == 1;
      assert TrimStart([c]) == [];
    } else if IsSpace(s[0]) {
      assert (s + [c])[1..] == s[1..] + [c];
      SplitSpaceFront(s + [c]);
      SplitSpaceFront(s);
      SplitSpaceBack(s[1..], c);
    } else {
      assert s + [c] == [s[0]] + (s[1..] + [c]);
      assert s == [s[0]] + s[1..];
      SplitSpaceBack(s[1..], c);
      SplitCons(s[0], s[1..] + [c]);
      SplitCons(s[0], s[1..]);
    }
  }

  /** Trailing whitespace does not change the words. */
  lemma {:induction false} SplitOfTrimEnd(s: string)
    ensures Split(TrimEnd(s)) == Split(s)
    decreases |s|
  {
    if s != [] && IsSpace(s[|s| - 1]) {
      var p := s[..|s| - 1];
      assert s == p + [s[|s| - 1]];
      assert TrimEnd(s) == TrimEnd(p);
      SplitOfTrimEnd(p);
      SplitSpaceBack(p, s[|s| - 1]);
    } else {
      assert TrimEnd(s) == s[..|s|] == s;
    }
  }

  /** Stripping does not change the words. */
  lemma SplitOfTrim(s: string)
    ensures Split(Trim(s)) == Split(s)
  {
    SplitOfTrimEnd(TrimStart(s));
    SplitOfTrimStart(s);
  }

  /** Whitespace in front of a text does not change its words. */
  lemma {:induction false} SplitSpacesFront(a: string, m: string)
    requires forall i :: 0 <= i < |a| ==> IsSpace(a[i])
    ensures Split(a + m) == Split(m)
    decreases |a|
  {
    if a != [] {
      assert (a + m)[1..] == a[1..] + m;
      SplitSpaceFront(a + m);
      SplitSpacesFront(a[1..], m);
    } else {
      assert a + m == m;
    }
  }

  /** Whitespace behind a text does not change its words. */
  lemma {:induction false} SplitSpacesBack(m: string, b: string)
    requires forall i :: 0 <= i < |b| ==> IsSpace(b[i])
    ensures Split(m + b) == Split(m)
    decreases |b|
  {
    if b != [] {
      var p := b[..|b| - 1];
      assert m + b == (m + p) + [b[|b| - 1]];
      SplitSpaceBack(m + p, b[|b| - 1]);
      SplitSpacesBack(m, p);
    } else {
      assert m + b == m;
    }
  }

  /** Collapsing whitespace runs keeps the words, in order. */
  lemma {:induction false} SplitOfCollapse(s: string)
    ensures Split(Collapse(s)) == Split(s)
    decreases |s|
  {
    if s != [] {
      if IsSpace(s[0]) {
        SplitOfCollapse(TrimStart(s[1..]));
        CollapseSpaceStep(s);
      } else {
        SplitOfCollapse(s[1..]);
        CollapseWordStep(s);
      }
    }
  }

  lemma CollapseSpaceStep(s: string)
    requires s != [] && IsSpace(s[0])
    requires Split(Collapse(TrimStart(s[1..]))) == Split(TrimStart(s[1..]))
    ensures Split(Collapse(s)) == Split(s)
  {
    var t := TrimStart(s[1..]);
    var c := [' '] + Collapse(t);
    assert Collapse(s) == c;
    assert c[1..] == Collapse(t);
    SplitSpaceFront(c);
    SplitOfTrimStart(s[1..]);
    SplitSpaceFront(s);
  }

  lemma CollapseWordStep(s: string)
    requires s != [] && !IsSpace(s[0])
    requires Split(Collapse(s[1..])) == Split(s[1..])
    ensures Split(Collapse(s)) == Split(s)
  {
    SplitCons(s[0], Collapse(s[1..]));
    SplitCons(s[0], s[1..]);
    assert s == [s[0]] + s[1..];
  }

  /** A text that starts with a word is that word followed by the rest of its words. */
  lemma FirstWord(s: string)
    requires s != [] && !IsSpace(s[0])
    ensures var w := WordPrefix(s);
            && w != [] && s[..|w|] == w
            && (|w| == |s| ==> Split(s) == [w])
            && (|w| < |s| ==> IsSpace(s[|w|]) && Split(s) == [w] + Split(s[|w| + 1..]))
  {
    TrimStartOfNonSpace(s);
    var w := WordPrefix(s);
    assert WordLength(s) == 1 + WordLength(s[1..]);
    assert |w| == WordLength(s);
    var tail := Split(s[|w|..]);
    assert Split(s) == [w] + tail;
    if |w| < |s| {
      var rest := s[|w|..];
      assert rest[0] == s[|w|];
      assert rest[1..] == s[|w| + 1..];
      SplitSpaceFront(rest);
    } else {
      assert s[|w|..] == [];
    }
  }

  /**
   * In a collapsed text with no whitespace at either end, a whitespace
   * character is a single ' ' followed by more such text.
   */
  lemma CollapsedAfterSpace(s: string, k: nat)
    requires IsCollapsed(s)
    requires s != [] && !IsSpace(s[0]) && !IsSpace(s[|s| - 1])
    requires k < |s| && IsSpace(s[k])
    ensures k + 1 < |s| && s[k] == ' '
    ensures var u := s[k + 1..];
            && IsCollapsed(u) && !IsSpace(u[0]) && !IsSpace(u[|u| - 1])
            && s == s[..k] + " " + u
  {
    var u := s[k + 1..];
    assert NotTwoSpaces(s, k);
    assert forall i :: 0 <= i < |u| ==> u[i] == s[k + 1 + i];
    forall i | 0 <= i < |u| - 1 ensures NotTwoSpaces(u, i) {
      assert NotTwoSpaces(s, k + 1 + i);
    }
  }

  /** A collapsed text with no whitespace at either end is its words joined by single spaces. */
  lemma {:induction false} JoinSplitOfCollapsed(s: string)
    requires IsCollapsed(s)
    requires s != [] && !IsSpace(s[0]) && !IsSpace(s[|s| - 1])
    ensures Split(s) != [] && Join(Split(s), " ") == s
    decreases |s|
  {
    FirstWord(s);
    var w := WordPrefix(s);
    if |w| < |s| {
      CollapsedAfterSpace(s, |w|);
      var u := s[|w| + 1..];
      JoinSplitOfCollapsed(u);
      JoinCons(w, Split(u), " ");
    }
  }

  /**
   * `re.sub(r'\s+', ' ', s.strip())` of a non-blank text is its words joined
   * by single spaces.
   */
  lemma CollapseTrimIsJoin(s: string)
    requires !IsBlank(s)
    ensures Collapse(Trim(s)) == Join(Split(s), " ")
  {
    var t := Trim(s);
    CollapseIsCollapsed(t);
    CollapseKeepsLast(t);
    JoinSplitOfCollapsed(Collapse(t));
    SplitOfCollapse(t);
    SplitOfTrim(s);
  }

  lemma {:induction false} LowerJoin(ws: seq<string>, sep: string)
    ensures Lower(Join(ws, sep)) == Join(seq(|ws|, k requires 0 <= k < |ws| => Lower(ws[k])), Lower(sep))
  {
    if |ws| > 1 {
      LowerConcat(ws[0] + sep, Join(ws[1..], sep));
      LowerConcat(ws[0], sep);
      LowerJoin(ws[1..], sep);
      var lowered := seq(|ws|, k requires 0 <= k < |ws| => Lower(ws[k]));
      assert lowered[1..] == seq(|ws| - 1, k requires 0 <= k < |ws| - 1 => Lower(ws[1..][k]));
    }
  }

  // ---------------------------------------------------------------------
  // Substrings and prefixes

  predicate StartsWith(s: string, p: string) {
    |p| <= |s| && s[..|p|] == p
  }

  predicate OccursAt(text: string, pat: string, i: nat) {
    i + |pat| <= |text| && text[i..i + |pat|] == pat
  }

  /** `pat in text` for strings. */
  predicate Contains(text: string, pat: string) {
    exists i: nat | i <= |text| :: OccursAt(text, pat, i)
  }

  /** Every string contains itself. */
  lemma ContainsSelf(s: string)
    ensures Contains(s, s)
  {
    assert OccursAt(s, s, 0);
  }

  /** No string contains a longer one. */
  lemma LongerNotContained(text: string, pat: string)
    requires |pat| > |text|
    ensures !Contains(text, pat)
  {
  }

  /** An occurrence of `big` holds an occurrence of every substring `big` contains. */
  lemma ContainsTransitive(text: string, big: string, small: string)
    requires Contains(text, big) && Contains(big, small)
    ensures Contains(text, small)
  {
    var i: nat :| i <= |text| && OccursAt(text, big, i);
    var j: nat :| j <= |big| && OccursAt(big, small, j);
    forall k | 0 <= k < |small| ensures text[i + j + k] == small[k] {
      assert small[k] == big[j + k] == text[i + j + k];
    }
    assert text[i + j..i + j + |small|] == small;
    assert OccursAt(text, small, i + j);
  }

  /** The first index of `c` in `s`, if any. */
  function IndexOf(s: string, c: char): (r: Option<nat>)
    ensures r.None? ==> c !in s
    ensures r.Some? ==> r.value < |s| && s[r.value] == c && c !in s[..r.value]
  {
    if s == [] then None
    else if s[0] == c then Some(0)
    else match IndexOf(s[1..], c)
      case None => None
      case Some(k) =>
        assert s[..k + 1] == [s[0]] + s[1..][..k];
        Some(k + 1)
  }

  /** The last index of `c` in `s`, if any. */
  function LastIndexOf(s: string, c: char): (r: Option<nat>)
    ensures r.None? ==> c !in s
    ensures r.Some? ==> r.value < |s| && s[r.value] == c && c !in s[r.value + 1..]
  {
    if s == [] then None
    else if s[|s| - 1] == c then Some(|s| - 1)
    else
      var r := LastIndexOf(s[..|s| - 1], c);
      if r.Some? then assert s[r.value + 1..] == s[..|s| - 1][r.value + 1..] + [s[|s| - 1]]; r else r
  }

  // ---------------------------------------------------------------------
  // Filtering and slicing

  /** `''.join(filter(keep, s))`, or `re.sub` with a character class: the kept characters, in order. */
  function Filter(s: string, keep: char -> bool): (r: string)
    ensures |r| <= |s|
    ensures forall i :: 0 <= i < |r| ==> keep(r[i])
  {
    if s == [] then []
    else (if keep(s[0]) then [s[0]] else []) + Filter(s[1..], keep)
  }

  lemma {:induction false} FilterConcat(a: string, b: string, keep: char -> bool)
    ensures Filter(a + b, keep) == Filter(a, keep) + Filter(b, keep)
  {
    if a == [] {
      assert a + b == b;
    } else {
      assert (a + b)[1..] == a[1..] + b;
      assert (a + b)[0] == a[0];
      FilterConcat(a[1..], b, keep);
      assert Filter(a + b, keep) == (if keep(a[0]) then [a[0]] else []) + Filter(a[1..] + b, keep);
    }
  }

  lemma {:induction false} FilterKeepsAll(s: string, keep: char -> bool)
    requires forall i :: 0 <= i < |s| ==> keep(s[i])
    ensures Filter(s, keep) == s
  {
    if s != [] {
      FilterKeepsAll(s[1..], keep);
    }
  }

  lemma {:induction false} FilterDropsAll(s: string, keep: char -> bool)
    requires forall i :: 0 <= i < |s| ==> !keep(s[i])
    ensures Filter(s, keep) == []
  {
    if s != [] {
      FilterDropsAll(s[1..], keep);
    }
  }

  /** Whatever every character of `s` satisfies, every kept character satisfies too. */
  lemma {:induction false} FilterKeepsProperty(s: string, keep: char -> bool, p: char -> bool)
    requires forall i :: 0 <= i < |s| ==> p(s[i])
    ensures forall i :: 0 <= i < |Filter(s, keep)| ==> p(Filter(s, keep)[i])
  {
    if s != [] {
      FilterKeepsProperty(s[1..], keep, p);
    }
  }

  /** Filtering before or after stripping the ends leaves the same words. */
  lemma SplitOfFilterTrim(s: string, keep: char -> bool)
    ensures Split(Filter(Trim(s), keep)) == Split(Filter(s, keep))
  {
    var i, j :| 0 <= i <= j <= |s| && Trim(s) == s[i..j]
                && forall k :: (0 <= k < i || j <= k < |s|) ==> IsSpace(s[k]);
    var a, m, b := s[..i], s[i..j], s[j..];
    assert s == a + m + b;
    assert forall k :: 0 <= k < |a| ==> IsSpace(a[k]) by {
      forall k | 0 <= k < |a| ensures IsSpace(a[k]) { assert a[k] == s[k]; }
    }
    assert forall k :: 0 <= k < |b| ==> IsSpace(b[k]) by {
      forall k | 0 <= k < |b| ensures IsSpace(b[k]) { assert b[k] == s[j + k]; }
    }
    FilterConcat(a + m, b, keep);
    FilterConcat(a, m, keep);
    FilterKeepsProperty(a, keep, IsSpace);
    FilterKeepsProperty(b, keep, IsSpace);
    var fa, fm, fb := Filter(a, keep), Filter(m, keep), Filter(b, keep);
    assert Filter(s, keep) == fa + fm + fb;
    SplitSpacesBack(fa + fm, fb);
    SplitSpacesFront(fa, fm);
  }

  /** The length Python's prefix slice `s[:n]` keeps. */
  function PrefixLength(len: nat, n: int): (k: nat)
    ensures k <= len
  {
    if n >= 0 then (if n < len then n else len)
    else if len + n > 0 then len + n else 0
  }

  /** Python's prefix slice `s[:n]`, where a negative `n` counts from the end. */
  function Take<T>(s: seq<T>, n: int): (r: seq<T>)
    ensures r == s[..PrefixLength(|s|, n)]
  {
    s[..PrefixLength(|s|, n)]
  }

  /** A non-empty sequence is its front followed by its last element. */
  lemma InitLast<T>(s: seq<T>)
    requires s != []
    ensures s[..|s| - 1] + [s[|s| - 1]] == s
  {
  }

  /** A prefix slice at least as long as the sequence keeps all of it. */
  lemma TakeAll<T>(s: seq<T>, n: int)
    requires n >= |s|
    ensures Take(s, n) == s
  {
    assert s[..|s|] == s;
  }

  // ---------------------------------------------------------------------
  // Decimal digits

  function DigitChar(d: nat): char
    requires d < 10
  {
    ('0' as int + d) as char
  }

  function DigitValue(c: char): nat
    requires IsDigit(c)
  {
    c as int - '0' as int
  }

  /** `int(s)` for a string of ASCII digits (the empty string gives 0). */
  function DigitsValue(s: string): nat
    requires AllDigits(s)
  {
    if s == [] then 0 else DigitsValue(s[..|s| - 1]) * 10 + DigitValue(s[|s| - 1])
  }

  /** `str(n)` for a natural number: decimal digits without leading zeros. */
  function NatText(n: nat): (r: string)
    ensures r != [] && AllDigits(r)
    ensures |r| > 1 ==> r[0] != '0'
    decreases n
  {
    if n < 10 then [DigitChar(n)] else NatText(n / 10) + [DigitChar(n % 10)]
  }

  /** `str(i)` for an integer. */
  function IntText(i: int): string {
    if i < 0 then "-" + NatText(-i) else NatText(i)
  }

  /** Reading back the digits `str(n)` writes gives `n`. */
  lemma {:induction false} NatTextValue(n: nat)
    ensures DigitsValue(NatText(n)) == n
    decreases n
  {
    if n >= 10 {
      var s := NatText(n);
      assert s[..|s| - 1] == NatText(n / 10);
      NatTextValue(n / 10);
    }
  }

  function Pow10(k: nat): (r: nat)
    ensures r >= 1
  {
    if k == 0 then 1 else 10 * Pow10(k - 1)
  }

  lemma {:induction false} NatTextLength(n: nat, w: nat)
    requires w >= 1 && n < Pow10(w)
    ensures |NatText(n)| <= w
    decreases w
  {
    if n >= 10 {
      assert w != 1;
      assert Pow10(w) == 10 * Pow10(w - 1);
      NatTextLength(n / 10, w - 1);
    }
  }

  function Zeros(k: nat): (r: string)
    ensures |r| == k && forall i :: 0 <= i < k ==> r[i] == '0'
  {
    if k == 0 then [] else ['0'] + Zeros(k - 1)
  }

  /** The `%0{w}d` rendering of `n`: `str(n)` padded on the left with zeros to width `w`. */
  function ZeroPad(n: nat, w: nat): (r: string)
    ensures AllDigits(r)
  {
    var t := NatText(n);
    if |t| < w then Zeros(w - |t|) + t else t
  }

  lemma {:induction false} LeadingZeroValue(s: string)
    requires AllDigits(s)
    ensures DigitsValue("0" + s) == DigitsValue(s)
    decreases |s|
  {
    if s != [] {
      var t := "0" + s;
      assert t[..|t| - 1] == "0" + s[..|s| - 1];
      LeadingZeroValue(s[..|s| - 1]);
    }
  }

  lemma {:induction false} ZerosValue(k: nat, s: string)
    requires AllDigits(s)
    ensures AllDigits(Zeros(k) + s) && DigitsValue(Zeros(k) + s) == DigitsValue(s)
    decreases k
  {
    if k == 0 {
      assert Zeros(k) + s == s;
    } else {
      ZerosValue(k - 1, s);
      assert Zeros(k) + s == "0" + (Zeros(k - 1) + s);
      assert AllDigits("0" + (Zeros(k - 1) + s));
      LeadingZeroValue(Zeros(k - 1) + s);
    }
  }

  /** A zero-padded number below 10^w has exactly `w` digits, and reads back as itself. */
  lemma ZeroPadValue(n: nat, w: nat)
    requires w >= 1 && n < Pow10(w)
    ensures |ZeroPad(n, w)| == w && DigitsValue(ZeroPad(n, w)) == n
  {
    var t := NatText(n);
    NatTextLength(n, w);
    NatTextValue(n);
    if |t| < w {
      ZerosValue(w - |t|, t);
      assert ZeroPad(n, w) == Zeros(w - |t|) + t;
    } else {
      assert ZeroPad(n, w) == t;
    }
  }

  /** The length of the longest prefix of `s` made of digits. */
  function DigitCount(s: string): (k: nat)
    ensures k <= |s|
    ensures forall i :: 0 <= i < k ==> IsDigit(s[i])
    ensures k < |s| ==> !IsDigit(s[k])
  {
    if s == [] || !IsDigit(s[0]) then 0 else 1 + DigitCount(s[1..])
  }

  /** The longest prefix of `s` made of digits. */
  function DigitPrefix(s: string): (r: string)
    ensures AllDigits(r)
  {
    s[..DigitCount(s)]
  }

  lemma DigitCountOfDigits(d: string, rest: string)
    requires AllDigits(d)
    requires rest == [] || !IsDigit(rest[0])
    ensures DigitCount(d + rest) == |d|
  {
    var s := d + rest;
    assert forall i :: 0 <= i < |d| ==> s[i] == d[i];
    assert |d| < |s| ==> s[|d|] == rest[0];
  }
}
