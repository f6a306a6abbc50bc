/**
 * The escape codec of libjson: \uxxxx text to and from UTF-8 (libjson/src/utf.cpp), and
 * string_escape / string_unescape over it (libjson/src/misc.cpp).
 *
 * A stream is the sequence of octets still to be read.  Reading past the end raises the
 * stream's end-of-file failure, which string_escape and string_unescape take as the end of
 * their work; a malformed sequence raises std::invalid_argument.
 */
module Utf {

  type Octet = x: int | 0 <= x < 256

  type Text = seq<Octet>

  datatype Fault = EndOfInput | BadArgument

  /** A value taken from the front of a stream, and what is left of it. */
  datatype Read<+T> = Got(value: T, rest: Text) | Failed(fault: Fault)

  datatype Result<+T> = Ok(value: T) | Err(fault: Fault)

  const BACKSLASH: Octet := 92
  const QUOTE: Octet := 34
  const LETTER_U: Octet := 117

  // ---- UTF-8 --------------------------------------------------------------------------

  /** utf8_encode. */
  function Utf8Encode(cp: nat): (r: Result<Text>) {
    if cp > 0x10FFFF then Err(BadArgument)
    else if cp < 0x80 then Ok([cp])
    else if cp < 0x800 then Ok([0xC0 + cp / 0x40, 0x80 + cp % 0x40])
    else if cp < 0x10000 then
      Ok([0xE0 + cp / 0x1000, 0x80 + cp / 0x40 % 0x40, 0x80 + cp % 0x40])
    else
      Ok([0xF0 + cp / 0x40000, 0x80 + cp / 0x1000 % 0x40, 0x80 + cp / 0x40 % 0x40, 0x80 + cp % 0x40])
  }

  predicate Tail(s: Text, i: nat) { i < |s| && 0x80 <= s[i] <= 0xBF }

  /** The length of the character at the front by section 4 of RFC 3629; 0 if there is none. */
  function CharLength(s: Text): (n: nat)
    ensures n <= |s| && n <= 4
  {
    if s == [] then 0
    else if s[0] < 0x80 then 1
    else if 0xC2 <= s[0] <= 0xDF && Tail(s, 1) then 2
    else if 0xE0 <= s[0] <= 0xEF && Tail(s, 1) && Tail(s, 2)
      && (s[0] == 0xE0 ==> s[1] >= 0xA0) && (s[0] == 0xED ==> s[1] <= 0x9F) then 3
    else if 0xF0 <= s[0] <= 0xF4 && Tail(s, 1) && Tail(s, 2) && Tail(s, 3)
      && (s[0] == 0xF0 ==> s[1] >= 0x90) && (s[0] == 0xF4 ==> s[1] <= 0x8F) then 4
    else 0
  }

  predicate ValidUtf8(s: Text)
    decreases |s|
  {
    s == [] || (CharLength(s) > 0 && ValidUtf8(s[CharLength(s)..]))
  }

  // ---- \uxxxx -------------------------------------------------------------------------

  function HexDigit(d: nat): (c: Octet)
    requires d < 16
  {
    if d < 10 then 48 + d else 87 + d
  }

  /** The value of a hexadecimal digit of either case, or -1. */
  function HexValue(c: Octet): (d: int)
    ensures -1 <= d < 16
  {
    if 48 <= c <= 57 then c - 48
    else if 97 <= c <= 102 then c - 87
    else if 65 <= c <= 70 then c - 55
    else -1
  }

  function Escaped(w: nat): (t: Text)
    requires w < 0x10000
  {
    [BACKSLASH, LETTER_U, HexDigit(w / 0x1000), HexDigit(w / 0x100 % 16), HexDigit(w / 16 % 16),
     HexDigit(w % 16)]
  }

  function HexDigits(s: Text, n: nat, w: nat): (r: Read<nat>)
    decreases n
  {
    if n == 0 then Got(w, s)
    else if s == [] then Failed(EndOfInput)
    else if HexValue(s[0]) < 0 then Failed(BadArgument)
    else HexDigits(s[1..], n - 1, 16 * w + HexValue(s[0]))
  }

  /** utf16_decode_seq; it refuses a prefix only when both of its characters are wrong. */
  function Unit(s: Text): (r: Read<nat>) {
    if |s| < 2 then Failed(EndOfInput)
    else if s[0] != BACKSLASH && s[1] != LETTER_U then Failed(BadArgument)
    else HexDigits(s[2..], 4, 0)
  }

  function AsUtf8(cp: nat, rest: Text): (r: Read<Text>) {
    match Utf8Encode(cp)
    case Ok(t) => Got(t, rest)
    case Err(f) => Failed(f)
  }

  /** utf16_decode; a high surrogate takes any following unit from 0xDC00 up. */
  function Utf16Decode(s: Text): (r: Read<Text>) {
    match Unit(s)
    case Failed(f) => Failed(f)
    case Got(w1, rest) =>
      if !(0xD800 <= w1 <= 0xDBFF) then AsUtf8(w1, rest)
      else
        match Unit(rest)
        case Failed(f) => Failed(f)
        case Got(w2, rest2) =>
          if w2 >= 0xDC00 then AsUtf8((w1 - 0xD800) * 0x400 + (w2 - 0xDC00) + 0x10000, rest2)
          else Failed(BadArgument)
  }

  /** The continuation octets of a character; any octet from 0x80 up passes as one. */
  function Continuation(s: Text, n: nat, dw: nat): (r: Read<nat>)
    decreases n
  {
    if n == 0 then Got(dw, s)
    else if s == [] then Failed(EndOfInput)
    else if s[0] < 0x80 then Failed(BadArgument)
    else Continuation(s[1..], n - 1, dw * 0x40 + s[0] % 0x40)
  }

  /** The code point a first octet announces; a lone octet is sign-extended to 32 bits. */
  function CodePoint(s: Text): (r: Read<nat>) {
    if s == [] then Failed(EndOfInput)
    else if s[0] >= 0xF0 then Continuation(s[1..], 3, s[0] % 0x08)
    else if s[0] >= 0xE0 then Continuation(s[1..], 2, s[0] % 0x10)
    else if s[0] >= 0xC0 then Continuation(s[1..], 1, s[0] % 0x20)
    else if s[0] >= 0x80 then Got(0xFFFFFF00 + s[0] as int, s[1..])
    else Got(s[0], s[1..])
  }

  /** One unit, or a surrogate pair, for a 32-bit code point. */
  function EscapedPoint(dw: nat): (t: Text) {
    if dw < 0x10000 then Escaped(dw)
    else
      var d := dw - 0x10000;
      Escaped(0xD800 + d / 0x400 % 0x400) + Escaped(0xDC00 + d % 0x400)
  }

  /** utf16_encode. */
  function Utf16Encode(s: Text): (r: Read<Text>) {
    match CodePoint(s)
    case Failed(f) => Failed(f)
    case Got(dw, rest) => Got(EscapedPoint(dw), rest)
  }

  // ---- whole strings ------------------------------------------------------------------

  /** The letter that stands for an octet after a backslash, 0 for an octet without one. */
  function ShortEscape(c: Octet): (r: Octet) {
    match c
    case 92 => 92
    case 34 => 34
    case 47 => 47
    case 8 => 98
    case 12 => 102
    case 10 => 110
    case 13 => 114
    case 9 => 116
    case _ => 0
  }

  /** The octet a letter after a backslash stands for, 0 if there is none. */
  function ShortUnescape(c: Octet): (r: Octet) {
    match c
    case 92 => 92
    case 34 => 34
    case 47 => 47
    case 98 => 8
    case 102 => 12
    case 110 => 10
    case 114 => 13
    case 116 => 9
    case _ => 0
  }

  function Prepend(t: Text, r: Result<Text>): (q: Result<Text>) {
    if r.Ok? then Ok(t + r.value) else r
  }

  /** What reading a stream to its end gives: the end of the input ends the string. */
  function AtFault(f: Fault): (r: Result<Text>) {
    if f.EndOfInput? then Ok([]) else Err(f)
  }

  function Escape(s: Text): (r: Result<Text>)
    decreases |s|
  {
    if s == [] then Ok([])
    else if ShortEscape(s[0]) != 0 then Prepend([BACKSLASH, ShortEscape(s[0])], Escape(s[1..]))
    else if s[0] < 0x80 then Prepend([s[0]], Escape(s[1..]))
    else
      match Utf16Encode(s)
      case Failed(f) => AtFault(f)
      case Got(t, rest) => CodePointShrinks(s); Prepend(t, Escape(rest))
  }

  function Unescape(s: Text): (r: Result<Text>)
    decreases |s|
  {
    if s == [] then Ok([])
    else if s[0] != BACKSLASH then Prepend([s[0]], Unescape(s[1..]))
    else if |s| == 1 then Ok([])
    else if s[1] == LETTER_U then
      match Utf16Decode(s)
      case Failed(f) => AtFault(f)
      case Got(t, rest) => Utf16DecodeShrinks(s); Prepend(t, Unescape(rest))
    else if ShortUnescape(s[1]) != 0 then Prepend([ShortUnescape(s[1])], Unescape(s[2..]))
    else Err(BadArgument)
  }

  lemma {:induction false} ContinuationShrinks(s: Text, n: nat, dw: nat)
    ensures Continuation(s, n, dw).Got? ==> |Continuation(s, n, dw).rest| + n == |s|
    decreases n
  {
    if n > 0 && s != [] && s[0] >= 0x80 { ContinuationShrinks(s[1..], n - 1, dw * 0x40 + s[0] % 0x40); }
  }

  lemma CodePointShrinks(s: Text)
    ensures CodePoint(s).Got? ==> |CodePoint(s).rest| < |s|
  {
    if s != [] {
      ContinuationShrinks(s[1..], 3, s[0] % 0x08);
      ContinuationShrinks(s[1..], 2, s[0] % 0x10);
      ContinuationShrinks(s[1..], 1, s[0] % 0x20);
    }
  }

  lemma {:induction false} HexDigitsShrink(s: Text, n: nat, w: nat)
    ensures HexDigits(s, n, w).Got? ==> |HexDigits(s, n, w).rest| + n == |s|
    decreases n
  {
    if n > 0 && s != [] && HexValue(s[0]) >= 0 {
      HexDigitsShrink(s[1..], n - 1, 16 * w + HexValue(s[0]));
    }
  }

  lemma UnitShrinks(s: Text)
    ensures Unit(s).Got? ==> |Unit(s).rest| + 6 == |s|
  {
    if |s| >= 2 { HexDigitsShrink(s[2..], 4, 0); }
  }

  /** An escape is longer than what it stands for. */
  lemma Utf16DecodeShrinks(s: Text)
    ensures Utf16Decode(s).Got? ==> |Utf16Decode(s).value| + |Utf16Decode(s).rest| < |s|
  {
    UnitShrinks(s);
    if Unit(s).Got? { UnitShrinks(Unit(s).rest); }
  }

  // ---- escapes and back ---------------------------------------------------------------

  lemma HexRoundTrip(d: nat)
    requires d < 16
    ensures HexValue(HexDigit(d)) == d
  {
  }

  lemma DigitsOfEscaped(w: nat)
    requires w < 0x10000
    ensures 0x1000 * (w / 0x1000) + 0x100 * (w / 0x100 % 16) + 16 * (w / 16 % 16) + w % 16 == w
  {
    assert w / 0x100 == w / 16 / 16 && w / 0x1000 == w / 0x100 / 16;
  }

  lemma NextDigit(d: nat, s: Text, n: nat, w: nat)
    requires d < 16
    ensures HexDigits([HexDigit(d)] + s, n + 1, w) == HexDigits(s, n, 16 * w + d)
  {
    HexRoundTrip(d);
    assert ([HexDigit(d)] + s)[1..] == s;
  }

  /** Four hexadecimal digits are read back as they were written, whatever follows. */
  lemma UnitOfEscaped(w: nat, rest: Text)
    requires w < 0x10000
    ensures Unit(Escaped(w) + rest) == Got(w, rest)
  {
    hide HexDigits, HexDigit;
    var a, b, c, d := w / 0x1000, w / 0x100 % 16, w / 16 % 16, w % 16;
    var s := [HexDigit(d)] + rest;
    NextDigit(a, [HexDigit(b)] + ([HexDigit(c)] + s), 3, 0);
    NextDigit(b, [HexDigit(c)] + s, 2, a);
    NextDigit(c, s, 1, 16 * a + b);
    NextDigit(d, rest, 0, 16 * (16 * a + b) + c);
    DigitsOfEscaped(w);
    assert (Escaped(w) + rest)[2..] == [HexDigit(a)] + ([HexDigit(b)] + ([HexDigit(c)] + s));
    NoMoreDigits(rest, w);
  }

  lemma NoMoreDigits(s: Text, w: nat)
    ensures HexDigits(s, 0, w) == Got(w, s)
  {
  }

  /** High surrogates cannot be told from the first half of a pair; all else comes back. */
  lemma PointRoundTrip(cp: nat, rest: Text)
    requires cp <= 0x10FFFF && !(0xD800 <= cp <= 0xDBFF)
    ensures Utf16Decode(EscapedPoint(cp) + rest) == Got(Utf8Encode(cp).value, rest)
  {
    hide Unit, Escaped, Utf8Encode;
    EncodeInRange(cp);
    if cp < 0x10000 {
      UnitOfEscaped(cp, rest);
    } else {
      var d := cp - 0x10000;
      var w1, w2 := 0xD800 + d / 0x400, 0xDC00 + d % 0x400;
      assert d / 0x400 % 0x400 == d / 0x400;
      assert EscapedPoint(cp) + rest == Escaped(w1) + (Escaped(w2) + rest);
      UnitOfEscaped(w1, Escaped(w2) + rest);
      UnitOfEscaped(w2, rest);
      assert (w1 - 0xD800) * 0x400 + (w2 - 0xDC00) + 0x10000 == cp;
    }
  }

  lemma EncodeInRange(cp: nat)
    requires cp <= 0x10FFFF
    ensures Utf8Encode(cp).Ok?
  {
  }

  /** A character of RFC 3629 is read as a code point that encodes to the same octets. */
  lemma PointOfChar(s: Text)
    requires CharLength(s) > 1
    ensures var n := CharLength(s);
      CodePoint(s).Got? && CodePoint(s).rest == s[n..] &&
      var cp := CodePoint(s).value;
      cp <= 0x10FFFF && !(0xD800 <= cp <= 0xDFFF) && Utf8Encode(cp) == Ok(s[..n])
  {
    match CharLength(s)
    case 2 => PointOf2(s, s[0] - 0xC0, s[1] - 0x80);
    case 3 => PointOf3(s, s[0] - 0xE0, s[1] - 0x80, s[2] - 0x80);
    case _ => PointOf4(s, s[0] - 0xF0, s[1] - 0x80, s[2] - 0x80, s[3] - 0x80);
  }

  lemma PointOf2(s: Text, a: nat, b: nat)
    requires CharLength(s) == 2 && s[0] == 0xC0 + a && s[1] == 0x80 + b
    ensures var cp := a * 0x40 + b;
      CodePoint(s) == Got(cp, s[2..]) && Utf8Encode(cp) == Ok(s[..2]) && cp < 0x800
  {
    NextContinuation(s, 1, 0, a);
    assert s[..2] == [s[0], s[1]];
  }

  lemma NextContinuation(s: Text, i: nat, n: nat, dw: nat)
    requires Tail(s, i)
    ensures Continuation(s[i..], n + 1, dw) == Continuation(s[i + 1..], n, dw * 0x40 + (s[i] - 0x80))
  {
    assert s[i..][1..] == s[i + 1..];
  }

  lemma Split3(a: nat, b: nat, c: nat)
    requires a < 0x10 && b < 0x40 && c < 0x40 && a * 0x1000 + b * 0x40 >= 0x800
    ensures Utf8Encode(a * 0x1000 + b * 0x40 + c) == Ok([0xE0 + a, 0x80 + b, 0x80 + c])
  {
    var cp := a * 0x1000 + b * 0x40 + c;
    assert cp / 0x40 == a * 0x40 + b;
  }

  lemma Split4(a: nat, b: nat, c: nat, d: nat)
    requires b < 0x40 && c < 0x40 && d < 0x40 && 0x10000 <= a * 0x40000 + b * 0x1000 <= 0x10F000
    ensures Utf8Encode(a * 0x40000 + b * 0x1000 + c * 0x40 + d)
      == Ok([0xF0 + a, 0x80 + b, 0x80 + c, 0x80 + d])
  {
    var cp := a * 0x40000 + b * 0x1000 + c * 0x40 + d;
    assert cp / 0x40 == a * 0x1000 + b * 0x40 + c;
    assert cp / 0x1000 == a * 0x40 + b;
  }

  lemma PointOf3(s: Text, a: nat, b: nat, c: nat)
    requires CharLength(s) == 3 && s[0] == 0xE0 + a && s[1] == 0x80 + b && s[2] == 0x80 + c
    ensures var cp := a * 0x1000 + b * 0x40 + c;
      CodePoint(s) == Got(cp, s[3..]) && Utf8Encode(cp) == Ok(s[..3]) &&
      cp < 0x10000 && !(0xD800 <= cp <= 0xDFFF)
  {
    hide Continuation, Utf8Encode;
    Split3(a, b, c);
    NextContinuation(s, 1, 1, a);
    NextContinuation(s, 2, 0, a * 0x40 + b);
    ContinuationEnds(s[3..], a * 0x1000 + b * 0x40 + c);
    assert s[..3] == [s[0], s[1], s[2]];
  }

  lemma PointOf4(s: Text, a: nat, b: nat, c: nat, d: nat)
    requires CharLength(s) == 4 && s[0] == 0xF0 + a && s[1] == 0x80 + b && s[2] == 0x80 + c
    requires s[3] == 0x80 + d
    ensures var cp := a * 0x40000 + b * 0x1000 + c * 0x40 + d;
      CodePoint(s) == Got(cp, s[4..]) && Utf8Encode(cp) == Ok(s[..4]) && 0x10000 <= cp <= 0x10FFFF
  {
    hide Continuation, Utf8Encode;
    Split4(a, b, c, d);
    NextContinuation(s, 1, 2, a);
    NextContinuation(s, 2, 1, a * 0x40 + b);
    NextContinuation(s, 3, 0, a * 0x1000 + b * 0x40 + c);
    ContinuationEnds(s[4..], a * 0x40000 + b * 0x1000 + c * 0x40 + d);
    assert s[..4] == [s[0], s[1], s[2], s[3]];
  }

  lemma ContinuationEnds(s: Text, dw: nat)
    ensures Continuation(s, 0, dw) == Got(dw, s)
  {
  }

  /** Escaping a multi-octet character and reading the escape back is the identity. */
  lemma CharRoundTrip(s: Text, rest: Text)
    requires CharLength(s) > 1
    ensures var n := CharLength(s);
      Utf16Encode(s).Got? && Utf16Encode(s).rest == s[n..] &&
      EscapePrefix(Utf16Encode(s).value) &&
      Utf16Decode(Utf16Encode(s).value + rest) == Got(s[..n], rest)
  {
    PointOfChar(s);
    PointRoundTrip(CodePoint(s).value, rest);
  }

  predicate EscapePrefix(t: Text) { |t| >= 2 && t[0] == BACKSLASH && t[1] == LETTER_U }

  lemma ShortRoundTrip(c: Octet)
    requires ShortEscape(c) != 0
    ensures ShortUnescape(ShortEscape(c)) == c != 0 && ShortEscape(c) != LETTER_U
  {
  }

  /** The octets and the escape of the first character, and what follows both. */
  function FirstChar(s: Text): (n: nat)
    requires s != [] && ValidUtf8(s)
    ensures 0 < n <= |s| && ValidUtf8(s[n..])
  {
    CharLength(s)
  }

  function EscapeOfFirst(s: Text): (t: Text)
    requires s != [] && ValidUtf8(s)
  {
    if ShortEscape(s[0]) != 0 then [BACKSLASH, ShortEscape(s[0])]
    else if s[0] < 0x80 then [s[0]]
    else PointOfChar(s); Utf16Encode(s).value
  }

  lemma EscapeStep(s: Text)
    requires s != [] && ValidUtf8(s)
    ensures Escape(s) == Prepend(EscapeOfFirst(s), Escape(s[FirstChar(s)..]))
  {
    if s[0] >= 0x80 { PointOfChar(s); }
  }

  lemma UnescapeStep(s: Text, rest: Text)
    requires s != [] && ValidUtf8(s)
    ensures Unescape(EscapeOfFirst(s) + rest) == Prepend(s[..FirstChar(s)], Unescape(rest))
  {
    if ShortEscape(s[0]) != 0 {
      ShortStep(s[0], rest);
      assert s[..1] == [s[0]];
    } else if s[0] < 0x80 {
      assert ([s[0]] + rest)[1..] == rest && s[..1] == [s[0]];
    } else {
      LongStep(s, rest);
    }
  }

  lemma ShortStep(c: Octet, rest: Text)
    requires ShortEscape(c) != 0
    ensures Unescape([BACKSLASH, ShortEscape(c)] + rest) == Prepend([c], Unescape(rest))
  {
    hide ShortEscape, ShortUnescape, Utf16Decode;
    ShortRoundTrip(c);
    var t := [BACKSLASH, ShortEscape(c)] + rest;
    assert t[0] == BACKSLASH && t[1] == ShortEscape(c) && t[2..] == rest;
  }

  lemma LongStep(s: Text, rest: Text)
    requires CharLength(s) > 1
    ensures Utf16Encode(s).Got?
    ensures Unescape(Utf16Encode(s).value + rest) == Prepend(s[..CharLength(s)], Unescape(rest))
  {
    hide Utf16Encode, Utf16Decode, CharLength;
    CharRoundTrip(s, rest);
  }

  /** string_unescape undoes string_escape on every valid UTF-8 string. */
  lemma {:induction false} EscapeRoundTrip(s: Text)
    requires ValidUtf8(s)
    ensures Escape(s).Ok? && Unescape(Escape(s).value) == Ok(s)
    decreases |s|
  {
    hide Escape, Unescape;
    if s == [] {
      EscapeEmpty();
    } else {
      var n := FirstChar(s);
      EscapeRoundTrip(s[n..]);
      EscapeStep(s);
      UnescapeStep(s, Escape(s[n..]).value);
      assert s == s[..n] + s[n..];
    }
  }

  lemma EscapeEmpty()
    ensures Escape([]) == Ok([]) && Unescape([]) == Ok([])
  {
  }

  // ---- unescaping a second time -------------------------------------------------------

  lemma {:induction false} UnescapeShortens(s: Text)
    ensures Unescape(s).Ok? ==> |Unescape(s).value| <= |s|
    ensures Unescape(s).Ok? && BACKSLASH in s ==> |Unescape(s).value| < |s|
    decreases |s|
  {
    if s == [] {
    } else if s[0] != BACKSLASH {
      UnescapeShortens(s[1..]);
      assert s == [s[0]] + s[1..];
    } else if |s| > 1 && s[1] == LETTER_U {
      Utf16DecodeShrinks(s);
      if Utf16Decode(s).Got? { UnescapeShortens(Utf16Decode(s).rest); }
    } else if |s| > 1 {
      UnescapeShortens(s[2..]);
    }
  }

  lemma {:induction false} UnescapePlain(s: Text)
    requires BACKSLASH !in s
    ensures Unescape(s) == Ok(s)
  {
    if s != [] {
      UnescapePlain(s[1..]);
      assert s == [s[0]] + s[1..];
    }
  }

  /** Unescaping leaves exactly the strings without a backslash alone. */
  lemma UnescapeFixed(s: Text)
    ensures Unescape(s) == Ok(s) <==> BACKSLASH !in s
  {
    UnescapeShortens(s);
    if BACKSLASH !in s { UnescapePlain(s); }
  }

  // ---- the loops ----------------------------------------------------------------------

  /** utf16_decode_seq. */
  method ReadUnit(s: Text) returns (r: Read<nat>)
    ensures r == Unit(s)
  {
    if |s| < 2 { return Failed(EndOfInput); }
    if s[0] != BACKSLASH && s[1] != LETTER_U { return Failed(BadArgument); }
    var input, w: nat := s[2..], 0;
    for i := 0 to 4
      invariant HexDigits(input, 4 - i, w) == Unit(s)
    {
      if input == [] { return Failed(EndOfInput); }
      if HexValue(input[0]) < 0 { return Failed(BadArgument); }
      w := 16 * w + HexValue(input[0]);
      input := input[1..];
    }
    return Got(w, input);
  }

  /** utf16_encode. */
  method EncodeChar(s: Text) returns (r: Read<Text>)
    ensures r == Utf16Encode(s)
  {
    if s == [] { return Failed(EndOfInput); }
    var len, dw: nat := 1, s[0];
    if s[0] >= 0xF0 {
      len, dw := 4, s[0] % 0x08;
    } else if s[0] >= 0xE0 {
      len, dw := 3, s[0] % 0x10;
    } else if s[0] >= 0xC0 {
      len, dw := 2, s[0] % 0x20;
    } else if s[0] >= 0x80 {
      dw := 0xFFFFFF00 + s[0] as int;
    }
    var input := s[1..];
    for i := 1 to len
      invariant CodePoint(s) == Continuation(input, len - i, dw)
    {
      if input == [] { return Failed(EndOfInput); }
      if input[0] < 0x80 { return Failed(BadArgument); }
      dw := dw * 0x40 + input[0] % 0x40;
      input := input[1..];
    }
    return Got(EscapedPoint(dw), input);
  }

  lemma PrependNothing(t: Text, r: Result<Text>)
    ensures Prepend([], r) == r && Prepend(t, Ok([])) == Ok(t)
  {
    assert t + [] == t;
    if r.Ok? { assert [] + r.value == r.value; }
  }

  lemma PrependTwice(a: Text, b: Text, r: Result<Text>)
    ensures Prepend(a, Prepend(b, r)) == Prepend(a + b, r)
  {
    if r.Ok? { assert a + (b + r.value) == a + b + r.value; }
  }

  /** string_unescape. */
  method StringUnescape(s: Text) returns (r: Result<Text>)
    ensures r == Unescape(s)
  {
    var str, iss: Text := [], s;
    PrependNothing([], Unescape(s));
    while iss != []
      invariant Prepend(str, Unescape(iss)) == Unescape(s)
      decreases |iss|
    {
      PrependNothing(str, Ok([]));
      var add: Text, rest := [iss[0]], iss[1..];
      if iss[0] == BACKSLASH {
        if |iss| == 1 { return Ok(str); }
        if iss[1] == LETTER_U {
          var d := Utf16Decode(iss);
          if d.Failed? {
            return if d.fault.EndOfInput? then Ok(str) else Err(d.fault);
          }
          Utf16DecodeShrinks(iss);
          add, rest := d.value, d.rest;
        } else if ShortUnescape(iss[1]) != 0 {
          add, rest := [ShortUnescape(iss[1])], iss[2..];
        } else {
          return Err(BadArgument);
        }
      }
      PrependTwice(str, add, Unescape(rest));
      str, iss := str + add, rest;
    }
    PrependNothing(str, Ok([]));
    return Ok(str);
  }

  /** string_escape. */
  method StringEscape(s: Text) returns (r: Result<Text>)
    ensures r == Escape(s)
  {
    var str, iss: Text := [], s;
    PrependNothing([], Escape(s));
    while iss != []
      invariant Prepend(str, Escape(iss)) == Escape(s)
      decreases |iss|
    {
      PrependNothing(str, Ok([]));
      var add: Text, rest := [iss[0]], iss[1..];
      if ShortEscape(iss[0]) != 0 {
        add := [BACKSLASH, ShortEscape(iss[0])];
      } else if iss[0] >= 0x80 {
        var e := EncodeChar(iss);
        if e.Failed? {
          return if e.fault.EndOfInput? then Ok(str) else Err(e.fault);
        }
        CodePointShrinks(iss);
        add, rest := e.value, e.rest;
      }
      PrependTwice(str, add, Escape(rest));
      str, iss := str + add, rest;
    }
    PrependNothing(str, Ok([]));
    return Ok(str);
  }
}
