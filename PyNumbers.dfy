/**
 * Python's `int(b)` and `float(b)` applied to the `bytes` fields of the
 * response, seen as ASCII text: surrounding ASCII whitespace is stripped,
 * an underscore is allowed only between two digits, and a value that does
 * not match the grammar is a `ValueError` (here `None`).
 */
module PyNumbers {
  import opened Wrappers
  import opened Numerals

  /** The whitespace CPython strips from a `bytes` argument (`Py_ISSPACE`). */
  predicate IsSpace(c: char)
  {
    c == ' ' || c == '\t' || c == '\n' || c == '\r' || c as int == 0x0B || c as int == 0x0C
  }

  function TrimStart(s: string): (r: string)
    ensures |r| <= |s| && r == s[|s| - |r|..]
    ensures r == [] || !IsSpace(r[0])
  {
    if s != [] && IsSpace(s[0]) then TrimStart(s[1..]) else s
  }

  function TrimEnd(s: string): (r: string)
    ensures |r| <= |s| && r == s[..|r|]
    ensures r == [] || !IsSpace(r[|r| - 1])
  {
    if s != [] && IsSpace(s[|s| - 1]) then TrimEnd(s[..|s| - 1]) else s
  }

  function Strip(s: string): string
  {
    TrimEnd(TrimStart(s))
  }

  /** Every underscore sits between two digits. */
  predicate UnderscoresBetweenDigits(s: string)
  {
    forall i :: 0 <= i < |s| && s[i] == '_' ==> 0 < i < |s| - 1 && IsDigit(s[i - 1]) && IsDigit(s[i + 1])
  }

  function DropUnderscores(s: string): (r: string)
    ensures '_' !in s ==> r == s
    ensures '_' !in r
  {
    if s == [] then []
    else (if s[0] == '_' then [] else [s[0]]) + DropUnderscores(s[1..])
  }

  /** An optional leading `+` or `-`: whether it was `-`, and the rest. */
  function SplitSign(s: string): (bool, string)
  {
    if s != [] && (s[0] == '+' || s[0] == '-') then (s[0] == '-', s[1..]) else (false, s)
  }

  /** `int(b)` in base 10. */
  function ParseInt(s: string): Option<int>
  {
    var t := Strip(s);
    if !UnderscoresBetweenDigits(t) then None
    else
      var (negative, digits) := SplitSign(DropUnderscores(t));
      if digits != [] && AllDigits(digits) then Some(Signed(negative, DigitsValue(digits)))
      else None
  }

  function Signed(negative: bool, magnitude: nat): int
  {
    if negative then 0 - magnitude as int else magnitude
  }

  /**
   * What `float(b)` denotes, kept exact: a finite value
   * (-1)^negative * digits * 10^exponent, an infinity, or a NaN.
   */
  datatype FloatValue =
    | Finite(negative: bool, digits: nat, exponent: int)
    | Infinite(negative: bool)
    | NaN

  function LowerChar(c: char): char
  {
    if 'A' <= c <= 'Z' then (c as int + 32) as char else c
  }

  /** `s` spells the lower-case `word` in any mix of cases. */
  predicate SpellsIgnoringCase(s: string, word: string)
    decreases |s|
  {
    |s| == |word| && (s == [] || (LowerChar(s[0]) == word[0] && SpellsIgnoringCase(s[1..], word[1..])))
  }

  function FirstIndex(s: string, c: char): (k: nat)
    ensures k <= |s|
    ensures k < |s| ==> s[k] == c
    ensures forall i :: 0 <= i < k ==> s[i] != c
  {
    if s == [] || s[0] == c then 0 else 1 + FirstIndex(s[1..], c)
  }

  /** `[sign] digit+`, the exponent after `e` or `E`. */
  function ParseExponent(s: string): Option<int>
  {
    var (negative, digits) := SplitSign(s);
    if digits != [] && AllDigits(digits) then Some(Signed(negative, DigitsValue(digits))) else None
  }

  /**
   * `digits [. digits] [exponent]` or `. digits [exponent]`, unsigned and
   * free of underscores, as digit value and power of ten.
   */
  function ParseDecimal(s: string): Option<(nat, int)>
  {
    var e := if FirstIndex(s, 'e') <= FirstIndex(s, 'E') then FirstIndex(s, 'e') else FirstIndex(s, 'E');
    var mantissa := s[..e];
    var dot := FirstIndex(mantissa, '.');
    var whole := mantissa[..dot];
    var fraction := if dot < |mantissa| then mantissa[dot + 1..] else [];
    if !(AllDigits(whole) && AllDigits(fraction) && |whole| + |fraction| > 0) then None
    else
      var scale := if e == |s| then Some(0) else ParseExponent(s[e + 1..]);
      match scale
      case None => None
      case Some(x) => Some((DigitsValue(whole + fraction), x - |fraction|))
  }

  /** `float(b)`. */
  function ParseFloat(s: string): Option<FloatValue>
  {
    var t := Strip(s);
    if !UnderscoresBetweenDigits(t) then None
    else
      var (negative, body) := SplitSign(DropUnderscores(t));
      ParseUnsignedFloat(negative, body)
  }

  /** What follows the sign: an infinity, a NaN or a decimal. */
  function ParseUnsignedFloat(negative: bool, body: string): Option<FloatValue>
  {
    if SpellsIgnoringCase(body, "inf") || SpellsIgnoringCase(body, "infinity") then Some(Infinite(negative))
    else if SpellsIgnoringCase(body, "nan") then Some(NaN)
    else
      match ParseDecimal(body)
      case None => None
      case Some((digits, exponent)) => Some(Finite(negative, digits, exponent))
  }

  lemma NoSpecialChars(s: string)
    requires AllDigits(s)
    ensures '_' !in s && 'e' !in s && 'E' !in s && '.' !in s && 'F' !in s && 'R' !in s
  {
    assert forall i :: 0 <= i < |s| ==> IsDigit(s[i]);
  }

  lemma {:induction false} FirstIndexPast(a: string, b: string, c: char)
    requires c !in a
    ensures FirstIndex(a + b, c) == |a| + FirstIndex(b, c)
    decreases |a|
  {
    if a == [] {
      assert a + b == b;
    } else {
      assert a[0] in a;
      assert (a + b)[0] == a[0] != c;
      assert (a + b)[1..] == a[1..] + b;
      assert FirstIndex(a + b, c) == 1 + FirstIndex((a + b)[1..], c);
      FirstIndexPast(a[1..], b, c);
    }
  }

  lemma StripLeavesUnpadded(text: string)
    requires text != [] && !IsSpace(text[0]) && !IsSpace(text[|text| - 1])
    ensures Strip(text) == text
  {
    assert TrimStart(text) == text;
    assert TrimEnd(text) == text;
  }

  lemma UnderscoreFreeText(text: string)
    requires '_' !in text
    ensures UnderscoresBetweenDigits(text) && DropUnderscores(text) == text
  {
  }

  lemma SignedText(negative: bool, body: string)
    requires body != [] && IsDigit(body[0]) && '_' !in body
    ensures var text := (if negative then "-" else "") + body;
      (text[0] == '-' || IsDigit(text[0]))
      && '_' !in text && SplitSign(text) == (negative, body)
  {
    var text := (if negative then "-" else "") + body;
    if negative {
      assert text == ['-'] + body;
      assert text[1..] == body;
    } else {
      assert text == body;
    }
  }

  /**
   * A number text made of an optional minus and a digit-led, digit-ended
   * body without underscores reaches the parsers unchanged.
   */
  lemma CleanNumberText(negative: bool, body: string)
    requires body != [] && IsDigit(body[0]) && IsDigit(body[|body| - 1]) && '_' !in body
    ensures var text := (if negative then "-" else "") + body;
      Strip(text) == text && UnderscoresBetweenDigits(text) && DropUnderscores(text) == text
      && SplitSign(text) == (negative, body)
  {
    var text := (if negative then "-" else "") + body;
    SignedText(negative, body);
    assert text[|text| - 1] == body[|body| - 1];
    StripLeavesUnpadded(text);
    UnderscoreFreeText(text);
  }

  lemma ParsePointDigit(whole: string, last: char)
    requires whole != [] && AllDigits(whole) && IsDigit(last)
    ensures ParseDecimal(whole + "." + [last]) == Some((DigitsValue(whole + [last]), -1))
  {
    var body := whole + "." + [last];
    NoSpecialChars(whole);
    assert 'e' !in body && 'E' !in body;
    assert FirstIndex(body, 'e') == |body| && FirstIndex(body, 'E') == |body|;
    assert body[..|body|] == body;
    FirstIndexPast(whole, "." + [last], '.');
    assert body == whole + ("." + [last]);
    assert FirstIndex(body, '.') == |whole|;
    assert body[..|whole|] == whole;
    assert body[|whole| + 1..] == [last];
    AppendDigit(whole, last);
  }

  /** The parsers see a clean number text as its sign and body. */
  lemma ParseFloatOfClean(negative: bool, body: string)
    requires body != [] && IsDigit(body[0]) && IsDigit(body[|body| - 1]) && '_' !in body
    ensures ParseFloat((if negative then "-" else "") + body) == ParseUnsignedFloat(negative, body)
  {
    var text := (if negative then "-" else "") + body;
    CleanNumberText(negative, body);
    assert Strip(text) == text;
    assert UnderscoresBetweenDigits(text);
    assert DropUnderscores(text) == text;
    assert SplitSign(text) == (negative, body);
  }

  /** `float` reads `[-]whole.last` as `whole last` tenths. */
  lemma ParseOneDecimal(negative: bool, whole: string, last: char)
    requires whole != [] && AllDigits(whole) && IsDigit(last)
    ensures ParseFloat((if negative then "-" else "") + (whole + "." + [last]))
      == Some(Finite(negative, DigitsValue(whole + [last]), -1))
  {
    var body := whole + "." + [last];
    NoSpecialChars(whole);
    assert '_' !in body;
    ParseFloatOfClean(negative, body);
    assert !SpellsIgnoringCase(body, "inf") && !SpellsIgnoringCase(body, "infinity");
    assert !SpellsIgnoringCase(body, "nan");
    ParsePointDigit(whole, last);
  }

  /** `int` reads `[-]digits` as the signed value of the digits. */
  lemma ParseSignedDigits(negative: bool, digits: string)
    requires digits != [] && AllDigits(digits)
    ensures ParseInt((if negative then "-" else "") + digits) == Some(Signed(negative, DigitsValue(digits)))
  {
    var text := (if negative then "-" else "") + digits;
    NoSpecialChars(digits);
    CleanNumberText(negative, digits);
    assert Strip(text) == text;
    assert UnderscoresBetweenDigits(text);
    assert DropUnderscores(text) == text;
    assert SplitSign(text) == (negative, digits);
  }

  /** Leading blanks do not change what `float` reads. */
  lemma ParseFloatSkipsSpace(text: string)
    ensures ParseFloat(" " + text) == ParseFloat(text)
  {
    assert TrimStart(" " + text) == TrimStart(text) by {
      assert (" " + text)[1..] == text;
    }
  }
}
