/**
 * The lexical analyser of libjson/src/lexer.cpp over the octets still to be read.
 *
 * Running out of input anywhere inside a token gives the end token.  A string token is
 * unescaped while it is read and once more when it is stored in the token's value
 * (libjson/include/json.h:270-276).
 */
module JsonLexer {

  import opened Utf
  import opened JsonValue

  datatype Exception =
    | ParsingError
    | InvalidArgument
    | OutOfRange
    | RealNumber            // a literal with a fraction or an exponent

  datatype Token = LCB | RCB | LB | RB | Colon | Comma | Scalar(v: Value) | End

  datatype Lexed = Tok(token: Token, rest: Text) | Throws(e: Exception)

  predicate Space(c: Octet) { c == 32 || c == 12 || c == 10 || c == 13 || c == 9 || c == 11 }

  predicate Digit(c: Octet) { 48 <= c <= 57 }

  const AT_END := Tok(End, [])

  /** get_null, get_true, get_false: a bounded read that stops at a line end. */
  function Keyword(s: Text, word: Text, v: Value): (r: Lexed)
    ensures r.Tok? ==> if r.token == End then r.rest == [] else |r.rest| + |word| == |s|
  {
    if |s| <= |word| && 10 !in s then AT_END
    else if |s| < |word| || s[..|word|] != word then Throws(ParsingError)
    else Tok(Scalar(v), s[|word|..])
  }

  /** How many digits s starts with. */
  function DigitRun(s: Text): (n: nat)
    ensures n <= |s| && (n < |s| ==> !Digit(s[n])) && forall i :: 0 <= i < n ==> Digit(s[i])
  {
    if s == [] || !Digit(s[0]) then 0 else 1 + DigitRun(s[1..])
  }

  function DigitsValue(t: Text): (n: int) {
    if t == [] then 0 else 10 * DigitsValue(t[..|t| - 1]) + (t[|t| - 1] as int - 48)
  }

  /** std::stoll of the digits, and the token. */
  function IntegerToken(negative: bool, digits: Text, rest: Text): (r: Lexed) {
    var n := if negative then -DigitsValue(digits) else DigitsValue(digits);
    if -0x8000_0000_0000_0000 <= n < 0x8000_0000_0000_0000 then Tok(Scalar(Int(n)), rest)
    else Throws(OutOfRange)
  }

  /** get_number after the sign; a leading 0 must be followed by a decimal point. */
  function Unsigned(negative: bool, s: Text): (r: Lexed)
    ensures r.Tok? ==> if r.token == End then r.rest == [] else |r.rest| < |s|
  {
    if s == [] then AT_END
    else if s[0] == 48 then
      if |s| == 1 then AT_END else if s[1] != 46 then Throws(ParsingError) else Throws(RealNumber)
    else if !Digit(s[0]) then Throws(ParsingError)
    else
      var k := DigitRun(s);
      if k == |s| then AT_END
      else if s[k] == 46 || s[k] == 101 || s[k] == 69 then Throws(RealNumber)
      else IntegerToken(negative, s[..k], s[k..])
  }

  function Number(s: Text): (r: Lexed)
    requires s != []
    ensures r.Tok? ==> if r.token == End then r.rest == [] else |r.rest| < |s|
  {
    if s[0] == 45 then Unsigned(true, s[1..]) else Unsigned(false, s)
  }

  datatype StringRead = Body(str: Text, rest: Text) | Cut | Bad(e: Exception)

  function Before(t: Text, r: StringRead): (q: StringRead) {
    if r.Body? then r.(str := t + r.str) else r
  }

  function OnFault(f: Fault): (r: StringRead) {
    if f.EndOfInput? then Cut else Bad(InvalidArgument)
  }

  /** get_string up to the closing quote. */
  function StringBody(s: Text): (r: StringRead)
    ensures r.Body? ==> |r.rest| < |s|
    decreases |s|
  {
    if s == [] then Cut
    else if s[0] == QUOTE then Body([], s[1..])
    else if s[0] != BACKSLASH then Before([s[0]], StringBody(s[1..]))
    else if |s| == 1 then Cut
    else if s[1] == LETTER_U then
      match Utf16Decode(s)
      case Failed(f) => OnFault(f)
      case Got(t, rest) => Utf16DecodeShrinks(s); Before(t, StringBody(rest))
    else if ShortUnescape(s[1]) != 0 then Before([ShortUnescape(s[1])], StringBody(s[2..]))
    else Bad(ParsingError)
  }

  /** Storing a string in the token's value unescapes it. */
  function Stored(str: Text, rest: Text): (r: Lexed) {
    var u := Unescape(str);
    if u.Ok? then Tok(Scalar(Str(u.value)), rest) else Throws(InvalidArgument)
  }

  function StringToken(s: Text): (r: Lexed)
    ensures r.Tok? ==> if r.token == End then r.rest == [] else |r.rest| < |s|
  {
    match StringBody(s)
    case Cut => AT_END
    case Bad(e) => Throws(e)
    case Body(str, rest) => Stored(str, rest)
  }

  function Punctuation(c: Octet): (t: Token) {
    match c
    case 123 => LCB
    case 125 => RCB
    case 91 => LB
    case 93 => RB
    case 58 => Colon
    case 44 => Comma
    case _ => End
  }

  /** The token that starts at the first octet, which is not white space. */
  function TokenHere(s: Text): (r: Lexed)
    requires s != []
    ensures r.Tok? ==> if r.token == End then r.rest == [] else |r.rest| < |s|
  {
    var c := s[0];
    if Punctuation(c) != End then Tok(Punctuation(c), s[1..])
    else if c == 110 then Keyword(s, NULL_TEXT, Null)
    else if c == 116 then Keyword(s, TRUE_TEXT, Bool(true))
    else if c == 102 then Keyword(s, FALSE_TEXT, Bool(false))
    else if c == 45 || Digit(c) then Number(s)
    else if c == QUOTE then StringToken(s[1..])
    else Throws(ParsingError)
  }

  /** lexer::get. */
  function NextToken(s: Text): (r: Lexed)
    ensures r.Tok? ==> if r.token == End then r.rest == [] else |r.rest| < |s|
  {
    if s == [] then AT_END
    else if Space(s[0]) then NextToken(s[1..])
    else TokenHere(s)
  }

  // ---- reading back what was printed --------------------------------------------------

  lemma {:induction false} SkipSpaces(t: Text, s: Text)
    requires forall i :: 0 <= i < |t| ==> Space(t[i])
    ensures NextToken(t + s) == NextToken(s)
  {
    if t == [] {
      assert t + s == s;
    } else {
      assert (t + s)[1..] == t[1..] + s;
      SkipSpaces(t[1..], s);
    }
  }

  lemma SkipBreak(pretty: bool, indent: nat, s: Text)
    ensures NextToken(Break(pretty, indent) + s) == NextToken(s)
  {
    SkipSpaces(Break(pretty, indent), s);
  }

  lemma NextPunctuation(c: Octet, s: Text)
    requires Punctuation(c) != End
    ensures NextToken([c] + s) == Tok(Punctuation(c), s)
  {
    assert ([c] + s)[1..] == s;
  }

  /** What may follow a printed value: a comma or a separator. */
  predicate Delimited(s: Text) { s != [] && (s[0] == 44 || Space(s[0])) }

  lemma NextKeyword(v: Value, s: Text)
    requires (v.Null? || v.Bool?) && Delimited(s)
    ensures NextToken(Shown(v, false, 0) + s) == Tok(Scalar(v), s)
  {
    var w := Shown(v, false, 0);
    assert (w + s)[..|w|] == w && (w + s)[|w|..] == s;
  }

  // ---- numbers ------------------------------------------------------------------------

  lemma {:induction false} DigitsRoundTrip(n: nat)
    ensures DigitsValue(Digits(n)) == n
    ensures forall i :: 0 <= i < |Digits(n)| ==> Digit(Digits(n)[i])
    ensures n > 0 ==> Digits(n)[0] != 48
  {
    if n >= 10 {
      DigitsRoundTrip(n / 10);
      var t := Digits(n);
      assert t[..|t| - 1] == Digits(n / 10);
    } else {
      assert Digits(n)[..0] == [];
    }
  }

  lemma {:induction false} RunOf(t: Text, s: Text)
    requires forall i :: 0 <= i < |t| ==> Digit(t[i])
    requires s != [] && !Digit(s[0])
    ensures DigitRun(t + s) == |t|
  {
    if t == [] {
      assert t + s == s;
    } else {
      assert (t + s)[1..] == t[1..] + s;
      RunOf(t[1..], s);
    }
  }

  lemma UnsignedPrinted(negative: bool, n: nat, s: Text)
    requires Delimited(s) && n > 0
    ensures Unsigned(negative, Digits(n) + s) == IntegerToken(negative, Digits(n), s)
  {
    var t := Digits(n);
    DigitsRoundTrip(n);
    RunOf(t, s);
    assert (t + s)[..|t|] == t && (t + s)[|t|..] == s;
    assert (t + s)[0] == t[0];
    hide DigitRun, Digits, IntegerToken;
  }

  /** At a digit or a sign the next token is a number. */
  lemma NextIsNumber(s: Text)
    requires s != [] && (Digit(s[0]) || s[0] == 45)
    ensures NextToken(s) == Number(s)
  {
    hide Number, Keyword;
  }

  lemma NextPositive(n: nat, s: Text)
    requires Delimited(s) && n > 0
    ensures NextToken(Digits(n) + s) == IntegerToken(false, Digits(n), s)
  {
    hide Digits, IntegerToken, Unsigned, NextToken, Delimited;
    UnsignedPrinted(false, n, s);
    DigitsRoundTrip(n);
    assert (Digits(n) + s)[0] == Digits(n)[0];
    NextIsNumber(Digits(n) + s);
  }

  lemma NextNegative(n: nat, s: Text)
    requires Delimited(s) && n > 0
    ensures NextToken([45] + Digits(n) + s) == IntegerToken(true, Digits(n), s)
  {
    hide Digits, IntegerToken, Unsigned, NextToken, Delimited;
    UnsignedPrinted(true, n, s);
    var t := [45] + Digits(n) + s;
    assert t[0] == 45 && t[1..] == Digits(n) + s;
    NextIsNumber(t);
  }

  lemma NextZero(s: Text)
    requires Delimited(s)
    ensures NextToken([48] + s) == Throws(ParsingError)
  {
    NextIsNumber([48] + s);
    assert ([48] + s)[1] == s[0];
  }

  /** A printed integer is read back, except that a bare 0 is refused. */
  lemma NextInteger(n: Int64, s: Text)
    requires Delimited(s)
    ensures NextToken(Decimal(n) + s) == if n == 0 then Throws(ParsingError) else Tok(Scalar(Int(n)), s)
  {
    hide Delimited, NextToken;
    var m: int := n;
    if m == 0 {
      NextZero(s);
    } else if m > 0 {
      NextPositive(m, s);
      DigitsRoundTrip(m);
    } else {
      NextNegative(-m, s);
      DigitsRoundTrip(-m);
    }
  }

  // ---- strings ------------------------------------------------------------------------

  lemma BodyStep(s: Text, rest: Text)
    requires s != [] && ValidUtf8(s)
    ensures StringBody(EscapeOfFirst(s) + rest) == Before(s[..FirstChar(s)], StringBody(rest))
  {
    var t := EscapeOfFirst(s) + rest;
    if ShortEscape(s[0]) != 0 {
      BodyShort(s[0], rest);
      assert s[..1] == [s[0]];
    } else if s[0] < 0x80 {
      assert t[1..] == rest && s[..1] == [s[0]];
    } else {
      BodyLong(s, rest);
    }
  }

  lemma BodyShort(c: Octet, rest: Text)
    requires ShortEscape(c) != 0
    ensures StringBody([BACKSLASH, ShortEscape(c)] + rest) == Before([c], StringBody(rest))
  {
    hide ShortEscape, ShortUnescape, Utf16Decode;
    ShortRoundTrip(c);
    var t := [BACKSLASH, ShortEscape(c)] + rest;
    assert t[0] == BACKSLASH && t[1] == ShortEscape(c) && t[2..] == rest;
  }

  lemma BodyLong(s: Text, rest: Text)
    requires CharLength(s) > 1
    ensures Utf16Encode(s).Got?
    ensures StringBody(Utf16Encode(s).value + rest) == Before(s[..CharLength(s)], StringBody(rest))
  {
    hide Utf16Encode, Utf16Decode, CharLength;
    CharRoundTrip(s, rest);
  }

  lemma EscapedTextStep(s: Text)
    requires s != [] && ValidUtf8(s)
    ensures EscapedText(s) == EscapeOfFirst(s) + EscapedText(s[FirstChar(s)..])
  {
    hide Escape, EscapeOfFirst;
    EscapeStep(s);
    EscapeRoundTrip(s[FirstChar(s)..]);
  }

  lemma BodyClosed(rest: Text)
    ensures StringBody(EscapedText([]) + [QUOTE] + rest) == Body([], rest)
  {
    assert EscapedText([]) + [QUOTE] + rest == [QUOTE] + rest;
    assert ([QUOTE] + rest)[1..] == rest;
  }

  /** The text of an escaped valid string, up to its closing quote, reads as the string. */
  lemma {:induction false} BodyPrinted(s: Text, rest: Text)
    requires ValidUtf8(s)
    ensures StringBody(EscapedText(s) + [QUOTE] + rest) == Body(s, rest)
    decreases |s|
  {
    if s == [] {
      BodyClosed(rest);
    } else {
      hide EscapedText, EscapeOfFirst, StringBody, ValidUtf8;
      var n := FirstChar(s);
      var more := EscapedText(s[n..]) + [QUOTE] + rest;
      EscapedTextStep(s);
      BodyPrinted(s[n..], rest);
      BodyStep(s, more);
      Regroup(EscapeOfFirst(s), EscapedText(s[n..]), [QUOTE], rest);
      Rejoin(s, n, rest);
    }
  }

  lemma Regroup(a: Text, b: Text, c: Text, d: Text)
    ensures a + b + c + d == a + (b + c + d)
  {
  }

  lemma Rejoin(s: Text, n: nat, rest: Text)
    requires n <= |s|
    ensures Before(s[..n], Body(s[n..], rest)) == Body(s, rest)
  {
    assert s == s[..n] + s[n..];
  }

  /** A printed string is read back unescaped once too often. */
  lemma NextString(s: Text, rest: Text)
    requires ValidUtf8(s)
    ensures NextToken(Quoted(s) + rest) == Stored(s, rest)
  {
    hide StringBody, Unescape, Escape;
    BodyPrinted(s, rest);
    var t := Quoted(s) + rest;
    assert t[0] == QUOTE;
    assert t[1..] == EscapedText(s) + [QUOTE] + rest;
  }
}
