/**
 * What an escape stands for, said without the codec: hexadecimal digits by their place among the
 * sixteen, code points by the octet patterns of RFC 3629, and one character of a string at a time.
 * A text is read in one of two dialects: strictly, by section 7 of RFC 8259, or as laxly as libjson
 * reads it (libjson/src/utf.cpp, libjson/src/misc.cpp).
 */
module Escapes {

  import opened Utf

  /** The octets of an ASCII text. */
  function Ascii(s: string): (t: Text)
    ensures |t| == |s| && forall i :: 0 <= i < |s| ==> t[i] == s[i] as int % 256
  {
    seq(|s|, i requires 0 <= i < |s| => s[i] as int % 256)
  }

  // ---- hexadecimal digits -------------------------------------------------------------

  /** The digit c, of either case, is worth d. */
  predicate HexOf(c: Octet, d: nat) {
    d < 16 && (c == "0123456789abcdef"[d] as int || c == "0123456789ABCDEF"[d] as int)
  }

  lemma DigitPlaces(d: nat)
    requires d < 16
    ensures "0123456789abcdef"[d] as int == (if d < 10 then 48 + d else 87 + d)
    ensures "0123456789ABCDEF"[d] as int == (if d < 10 then 48 + d else 55 + d)
  {
  }

  lemma HexValueExactly(c: Octet, d: nat)
    ensures HexValue(c) == d <==> HexOf(c, d)
  {
    if d < 16 { DigitPlaces(d); }
  }

  /** Four digits, of any case each, worth w by their positions. */
  ghost predicate FourHex(t: Text, w: nat) {
    |t| == 4 && exists a: nat, b: nat, c: nat, d: nat ::
      HexOf(t[0], a) && HexOf(t[1], b) && HexOf(t[2], c) && HexOf(t[3], d) && w == 4096 * a + 256 * b + 16 * c + d
  }

  predicate AllHex(t: Text) { forall i :: 0 <= i < |t| ==> HexValue(t[i]) >= 0 }

  lemma HexStep(s: Text, n: nat, w: nat)
    requires n > 0 && s != [] && HexValue(s[0]) >= 0
    ensures HexDigits(s, n, w) == HexDigits(s[1..], n - 1, 16 * w + HexValue(s[0]))
  {
  }

  function FourWorth(t: Text): (w: int)
    requires |t| == 4
  {
    4096 * HexValue(t[0]) + 256 * HexValue(t[1]) + 16 * HexValue(t[2]) + HexValue(t[3])
  }

  lemma FourHexIs(t: Text, w: nat)
    requires |t| == 4
    ensures FourHex(t, w) <==> AllHex(t) && w == FourWorth(t)
  {
    hide HexOf, HexValue;
    if AllHex(t) {
      var a, b, c, d := HexValue(t[0]), HexValue(t[1]), HexValue(t[2]), HexValue(t[3]);
      HexValueExactly(t[0], a);
      HexValueExactly(t[1], b);
      HexValueExactly(t[2], c);
      HexValueExactly(t[3], d);
    }
    if FourHex(t, w) {
      var a: nat, b: nat, c: nat, d: nat :|
        HexOf(t[0], a) && HexOf(t[1], b) && HexOf(t[2], c) && HexOf(t[3], d) && w == 4096 * a + 256 * b + 16 * c + d;
      HexValueExactly(t[0], a);
      HexValueExactly(t[1], b);
      HexValueExactly(t[2], c);
      HexValueExactly(t[3], d);
    }
  }

  /** Reading four digits: their value, or nothing. */
  lemma FourDigits(s: Text, w: nat)
    requires |s| >= 4
    ensures HexDigits(s, 4, 0) == Got(w, s[4..]) <==> FourHex(s[..4], w)
    ensures HexDigits(s, 4, 0).Got? ==> HexDigits(s, 4, 0).rest == s[4..]
    ensures HexDigits(s, 4, 0) != Failed(EndOfInput)
  {
    hide HexDigits, HexValue, FourHex;
    FourHexIs(s[..4], w);
    if AllHex(s[..4]) { FourGood(s); } else { FourBad(s); }
  }

  lemma HexStepAt(s: Text, i: nat, n: nat, w: nat)
    requires n > 0 && i < |s| && HexValue(s[i]) >= 0
    ensures HexDigits(s[i..], n, w) == HexDigits(s[i + 1..], n - 1, 16 * w + HexValue(s[i]))
  {
    assert s[i..][1..] == s[i + 1..];
    HexStep(s[i..], n, w);
  }

  lemma FourGood(s: Text)
    requires |s| >= 4 && AllHex(s[..4])
    ensures FourWorth(s[..4]) >= 0 && HexDigits(s, 4, 0) == Got(FourWorth(s[..4]), s[4..])
  {
    hide HexDigits, HexValue;
    assert forall i :: 0 <= i < 4 ==> s[..4][i] == s[i] && HexValue(s[i]) >= 0;
    var a, b, c, d := HexValue(s[0]), HexValue(s[1]), HexValue(s[2]), HexValue(s[3]);
    HexStepAt(s, 0, 4, 0);
    HexStepAt(s, 1, 3, a);
    HexStepAt(s, 2, 2, 16 * a + b);
    HexStepAt(s, 3, 1, 16 * (16 * a + b) + c);
    assert s[0..] == s;
    NoMoreDigits(s[4..], 16 * (16 * (16 * a + b) + c) + d);
  }

  lemma {:induction false} BadDigit(s: Text, n: nat, w: nat, i: nat)
    requires i < n && i < |s| && HexValue(s[i]) < 0 && forall j :: 0 <= j < i ==> HexValue(s[j]) >= 0
    ensures HexDigits(s, n, w) == Failed(BadArgument)
    decreases i
  {
    if i > 0 {
      HexStep(s, n, w);
      BadDigit(s[1..], n - 1, 16 * w + HexValue(s[0]), i - 1);
    }
  }

  lemma FirstBad(t: Text) returns (i: nat)
    requires !AllHex(t)
    ensures i < |t| && HexValue(t[i]) < 0 && forall j :: 0 <= j < i ==> HexValue(t[j]) >= 0
  {
    i := 0;
    while HexValue(t[i]) >= 0
      invariant i < |t| && forall j :: 0 <= j < i ==> HexValue(t[j]) >= 0
      decreases |t| - i
    {
      if i + 1 == |t| { assert AllHex(t); }
      i := i + 1;
    }
  }

  lemma FourBad(s: Text)
    requires |s| >= 4 && !AllHex(s[..4])
    ensures HexDigits(s, 4, 0) == Failed(BadArgument)
  {
    var i := FirstBad(s[..4]);
    assert forall j :: 0 <= j <= i ==> s[..4][j] == s[j];
    BadDigit(s, 4, 0, i);
  }

  /** Too few octets for the digits: the end of the input unless one of them is no digit. */
  lemma {:induction false} FewDigits(s: Text, n: nat, w: nat)
    requires |s| < n
    ensures HexDigits(s, n, w) == if AllHex(s) then Failed(EndOfInput) else Failed(BadArgument)
    decreases n
  {
    if s != [] && HexValue(s[0]) >= 0 {
      HexStep(s, n, w);
      FewDigits(s[1..], n - 1, 16 * w + HexValue(s[0]));
      assert AllHex(s) <==> AllHex(s[1..]);
    }
  }

  /** A unit whose prefix is right in at least one of its two octets. */
  ghost predicate UnitAt(s: Text, w: nat, rest: Text) {
    |s| >= 6 && (s[0] == '\\' as int || s[1] == 'u' as int) && FourHex(s[2..6], w) && rest == s[6..]
  }

  /** utf16_decode_seq reads exactly those units. */
  lemma UnitExactly(s: Text, w: nat, rest: Text)
    ensures Unit(s) == Got(w, rest) <==> UnitAt(s, w, rest)
  {
    if |s| >= 6 {
      FourDigits(s[2..], w);
      assert s[2..][..4] == s[2..6] && s[2..][4..] == s[6..];
    } else if |s| >= 2 {
      FewDigits(s[2..], 4, 0);
    }
    hide HexDigits, FourHex;
  }

  /** It meets the end of the input exactly where a unit is cut off. */
  predicate UnitCut(s: Text) {
    |s| < 2 || ((s[0] == '\\' as int || s[1] == 'u' as int) && |s| < 6 && AllHex(s[2..]))
  }

  lemma UnitCutExactly(s: Text)
    ensures Unit(s) == Failed(EndOfInput) <==> UnitCut(s)
  {
    if |s| >= 6 {
      FourDigits(s[2..], 0);
    } else if |s| >= 2 {
      FewDigits(s[2..], 4, 0);
    }
    hide HexDigits, FourHex;
  }

  // ---- code points --------------------------------------------------------------------

  predicate Follows(c: Octet) { 0x80 <= c <= 0xBF }

  /** The octets of one code point in its shortest form; surrogates are let pass. */
  predicate Shaped(t: Text) {
    if |t| == 1 then t[0] < 0x80
    else if |t| == 2 then 0xC2 <= t[0] <= 0xDF && Follows(t[1])
    else if |t| == 3 then
      0xE0 <= t[0] <= 0xEF && Follows(t[1]) && Follows(t[2]) && (t[0] == 0xE0 ==> t[1] >= 0xA0)
    else
      |t| == 4 && 0xF0 <= t[0] <= 0xF4 && Follows(t[1]) && Follows(t[2]) && Follows(t[3]) &&
      (t[0] == 0xF0 ==> t[1] >= 0x90) && (t[0] == 0xF4 ==> t[1] <= 0x8F)
  }

  /** An octet without the mark that it starts with. */
  function Bits(c: Octet, mark: nat): (n: int) { c as int - mark }

  /** The bits of the octets, put together. */
  function PointOf(t: Text): (cp: nat)
    requires Shaped(t)
  {
    if |t| == 1 then t[0]
    else if |t| == 2 then Bits(t[0], 0xC0) * 0x40 + Bits(t[1], 0x80)
    else if |t| == 3 then Bits(t[0], 0xE0) * 0x1000 + Bits(t[1], 0x80) * 0x40 + Bits(t[2], 0x80)
    else
      Bits(t[0], 0xF0) * 0x40000 + Bits(t[1], 0x80) * 0x1000 + Bits(t[2], 0x80) * 0x40 + Bits(t[3], 0x80)
  }

  predicate Encodes(t: Text, cp: nat) { Shaped(t) && PointOf(t) == cp }

  /** utf8_encode writes the octets of the code point, and refuses exactly those above 0x10FFFF. */
  lemma EncodeExactly(cp: nat, t: Text)
    ensures Utf8Encode(cp) == Ok(t) <==> Encodes(t, cp)
    ensures Utf8Encode(cp).Ok? <==> cp <= 0x10FFFF
  {
    if Encodes(t, cp) { ShapedEncodes(t); }
    if Utf8Encode(cp).Ok? { EncodeShaped(cp); }
  }

  lemma ShapedEncodes(t: Text)
    requires Shaped(t)
    ensures Utf8Encode(PointOf(t)) == Ok(t)
  {
    if |t| == 1 {
      assert t == [t[0]];
    } else if |t| == 2 {
      assert t == [t[0], t[1]];
    } else if |t| == 3 {
      Split3(t[0] - 0xE0, t[1] - 0x80, t[2] - 0x80);
      assert t == [t[0], t[1], t[2]];
    } else {
      Split4(t[0] - 0xF0, t[1] - 0x80, t[2] - 0x80, t[3] - 0x80);
      assert t == [t[0], t[1], t[2], t[3]];
    }
  }

  lemma EncodeShaped(cp: nat)
    requires cp <= 0x10FFFF
    ensures Utf8Encode(cp).Ok? && Encodes(Utf8Encode(cp).value, cp)
  {
    if 0x800 <= cp < 0x10000 {
      assert cp / 0x1000 == cp / 0x40 / 0x40;
    } else if cp >= 0x10000 {
      assert cp / 0x1000 == cp / 0x40 / 0x40 && cp / 0x40000 == cp / 0x1000 / 0x40;
    }
  }

  /** RFC 3629 characters are those without the surrogates. */
  lemma CharsAreShaped(t: Text)
    requires t != []
    ensures CharLength(t) == |t| <==> Shaped(t) && !(0xD800 <= PointOf(t) <= 0xDFFF)
  {
  }

  // ---- one character of a string ------------------------------------------------------

  /** What stands behind a backslash, and for what. */
  function Meaning(c: Octet): (r: Octet) {
    match c as char
    case '"' => '"' as int
    case '\\' => '\\' as int
    case '/' => '/' as int
    case 'b' => 8
    case 'f' => 12
    case 'n' => 10
    case 'r' => 13
    case 't' => 9
    case _ => 0
  }

  lemma MeaningExactly(c: Octet)
    ensures ShortUnescape(c) == Meaning(c)
  {
  }

  /** \uxxxx, or two of them for a code point above 0xFFFF. A lax reader takes a low surrogate as a
      character, and after a high one any unit from 0xDC00 up. */
  ghost predicate PointAt(lax: bool, s: Text, piece: Text, rest: Text) {
    |s| >= 6 && s[0] == '\\' as int && s[1] == 'u' as int && exists w: nat ::
      && FourHex(s[2..6], w)
      && if 0xD800 <= w <= 0xDBFF then PairAt(lax, w, s[6..], piece, rest)
         else Encodes(piece, w) && rest == s[6..] && (lax || !(0xDC00 <= w <= 0xDFFF))
  }

  ghost predicate PairAt(lax: bool, w: nat, s: Text, piece: Text, rest: Text) {
    w >= 0xD800 && exists w2: nat ::
      && UnitAt(s, w2, rest) && w2 >= 0xDC00
      && Encodes(piece, 0x10000 + 0x400 * (w - 0xD800) + (w2 - 0xDC00))
      && (lax || (s[0] == '\\' as int && s[1] == 'u' as int && w2 <= 0xDFFF))
  }

  /** A character that stands for itself: strictly, neither a control nor half of one. */
  predicate PlainAt(lax: bool, s: Text, piece: Text, rest: Text) {
    s != [] && s[0] != '\\' as int && s == piece + rest &&
    if lax then |piece| == 1 else s[0] >= 0x20 && |piece| == CharLength(s) > 0
  }

  ghost predicate ItemAt(lax: bool, s: Text, piece: Text, rest: Text) {
    || PlainAt(lax, s, piece, rest)
    || (|s| >= 2 && s[0] == '\\' as int && Meaning(s[1]) != 0 && piece == [Meaning(s[1])] && rest == s[2..])
    || PointAt(lax, s, piece, rest)
  }

  lemma ItemShrinks(lax: bool, s: Text, piece: Text, rest: Text)
    requires ItemAt(lax, s, piece, rest)
    ensures |rest| < |s| && s != []
  {
  }

  /** Decoding an escape is reading such a character. */
  lemma DecodeExactly(s: Text, piece: Text, rest: Text)
    requires |s| >= 2 && s[0] == '\\' as int && s[1] == 'u' as int
    ensures Utf16Decode(s) == Got(piece, rest) <==> PointAt(true, s, piece, rest)
  {
    hide Unit, Utf8Encode, FourHex, Encodes;
    if Unit(s).Got? {
      var w, more := Unit(s).value, Unit(s).rest;
      UnitExactly(s, w, more);
      SameUnit(s);
      if 0xD800 <= w <= 0xDBFF {
        PairExactly(w, more, piece, rest);
      } else {
        EncodeExactly(w, piece);
      }
    } else {
      NoUnit(s);
    }
  }

  lemma SameUnit(s: Text)
    requires |s| >= 6 && (s[0] == '\\' as int || s[1] == 'u' as int)
    ensures forall w: nat :: FourHex(s[2..6], w) ==> Unit(s) == Got(w, s[6..])
  {
    hide FourHex, Unit;
    forall w: nat | FourHex(s[2..6], w)
      ensures Unit(s) == Got(w, s[6..])
    {
      UnitExactly(s, w, s[6..]);
    }
  }

  lemma NoUnit(s: Text)
    requires Unit(s).Failed?
    ensures forall w: nat, rest :: !UnitAt(s, w, rest)
    ensures |s| >= 6 && (s[0] == '\\' as int || s[1] == 'u' as int) ==> forall w: nat :: !FourHex(s[2..6], w)
  {
    hide FourHex, Unit;
    forall w: nat, rest
      ensures !UnitAt(s, w, rest)
    {
      UnitExactly(s, w, rest);
    }
    if |s| >= 6 && (s[0] == '\\' as int || s[1] == 'u' as int) {
      forall w: nat
        ensures !FourHex(s[2..6], w)
      {
        assert !UnitAt(s, w, s[6..]);
      }
    }
  }

  lemma PairExactly(w: nat, s: Text, piece: Text, rest: Text)
    requires 0xD800 <= w <= 0xDBFF
    ensures PairAt(true, w, s, piece, rest) <==>
      var u := Unit(s);
      u.Got? && u.value >= 0xDC00 &&
      AsUtf8((w - 0xD800) * 0x400 + (u.value - 0xDC00) + 0x10000, u.rest) == Got(piece, rest)
  {
    hide Unit, Utf8Encode, FourHex, Encodes;
    if Unit(s).Got? {
      var w2 := Unit(s).value;
      UnitExactly(s, w2, Unit(s).rest);
      SameUnit(s);
      if w2 >= 0xDC00 { EncodeExactly(0x10000 + 0x400 * (w - 0xD800) + (w2 - 0xDC00), piece); }
    } else {
      NoUnit(s);
    }
  }

  /** The unit that four digits make. */
  function UnitText(ds: Text, rest: Text): (s: Text) { Ascii("\\u") + ds + rest }

  lemma UnitTextIs(ds: Text, rest: Text)
    requires |ds| == 4
    ensures var s := UnitText(ds, rest);
      |s| >= 6 && s[0] == '\\' as int && s[1] == 'u' as int && s[2..6] == ds && s[6..] == rest
  {
  }

  /** Four digits of either case after \u are read by their positions, whatever follows. */
  lemma UnitOfDigits(ds: Text, a: nat, b: nat, c: nat, d: nat, rest: Text)
    requires |ds| == 4 && HexOf(ds[0], a) && HexOf(ds[1], b) && HexOf(ds[2], c) && HexOf(ds[3], d)
    ensures Unit(UnitText(ds, rest)) == Got(4096 * a + 256 * b + 16 * c + d, rest)
  {
    hide HexOf, Unit, UnitText;
    UnitTextIs(ds, rest);
    UnitExactly(UnitText(ds, rest), 4096 * a + 256 * b + 16 * c + d, rest);
  }

  /** An escape of digits of any case gives the UTF-8 of the code point, unless it is the first half of
      a pair. */
  lemma PointOfDigits(ds: Text, cp: nat, rest: Text)
    requires |ds| == 4 && FourHex(ds, cp) && !(0xD800 <= cp <= 0xDBFF)
    ensures var r := Utf16Decode(UnitText(ds, rest)); r.Got? && Encodes(r.value, cp) && r.rest == rest
  {
    FourRange(ds, cp);
    EncodeShaped(cp);
    hide FourHex, Encodes, Utf8Encode, Utf16Decode, UnitText;
    UnitTextIs(ds, rest);
    DecodeExactly(UnitText(ds, rest), Utf8Encode(cp).value, rest);
  }

  /** And a pair of them that of the code point they make up. */
  lemma PairOfDigits(ds: Text, w: nat, es: Text, w2: nat, rest: Text)
    requires |ds| == 4 && FourHex(ds, w) && 0xD800 <= w <= 0xDBFF
    requires |es| == 4 && FourHex(es, w2) && 0xDC00 <= w2 <= 0xDFFF
    ensures var r := Utf16Decode(UnitText(ds, UnitText(es, rest)));
      r.Got? && Encodes(r.value, 0x10000 + 0x400 * (w - 0xD800) + (w2 - 0xDC00)) && r.rest == rest
  {
    var cp := 0x10000 + 0x400 * (w - 0xD800) + (w2 - 0xDC00);
    EncodeShaped(cp);
    hide FourHex, Encodes, Utf8Encode, Utf16Decode, UnitText;
    UnitTextIs(ds, UnitText(es, rest));
    UnitTextIs(es, rest);
    assert UnitAt(UnitText(es, rest), w2, rest);
    assert PairAt(true, w, UnitText(es, rest), Utf8Encode(cp).value, rest);
    DecodeExactly(UnitText(ds, UnitText(es, rest)), Utf8Encode(cp).value, rest);
  }

  lemma FourRange(t: Text, w: nat)
    requires FourHex(t, w)
    ensures w < 0x10000
  {
  }

  // ---- reading a string to its end ----------------------------------------------------

  /** An escape that the end of the input cuts off. */
  ghost predicate EscapeCut(s: Text) {
    s != [] && s[0] == '\\' as int &&
    (|s| == 1 || (s[1] == 'u' as int && (UnitCut(s) ||
      (|s| >= 6 && UnitCut(s[6..]) && exists w: nat :: 0xD800 <= w <= 0xDBFF && FourHex(s[2..6], w)))))
  }

  lemma DecodeCutExactly(s: Text)
    requires |s| >= 2 && s[0] == '\\' as int && s[1] == 'u' as int
    ensures Utf16Decode(s) == Failed(EndOfInput) <==> EscapeCut(s)
  {
    hide Unit, Utf8Encode, FourHex, UnitCut;
    UnitCutExactly(s);
    if Unit(s).Got? {
      var w, more := Unit(s).value, Unit(s).rest;
      UnitExactly(s, w, more);
      SameUnit(s);
      UnitCutExactly(more);
      EncodeFaults(w);
      if Unit(more).Got? && w >= 0xD800 && Unit(more).value >= 0xDC00 {
        EncodeFaults((w - 0xD800) * 0x400 + (Unit(more).value - 0xDC00) + 0x10000);
      }
    } else {
      NoUnit(s);
    }
  }

  lemma EncodeFaults(cp: nat)
    ensures Utf8Encode(cp) != Err(EndOfInput)
  {
  }

  /** The character at the front, as the code takes it. */
  function FirstItem(s: Text): (r: Read<Text>)
    requires s != []
    ensures r.Got? ==> |r.rest| < |s|
  {
    if s[0] != BACKSLASH then Got([s[0]], s[1..])
    else if |s| == 1 then Failed(EndOfInput)
    else if s[1] == LETTER_U then Utf16DecodeShrinks(s); Utf16Decode(s)
    else if ShortUnescape(s[1]) != 0 then Got([ShortUnescape(s[1])], s[2..])
    else Failed(BadArgument)
  }

  lemma ItemExactly(s: Text, piece: Text, rest: Text)
    requires s != []
    ensures FirstItem(s) == Got(piece, rest) <==> ItemAt(true, s, piece, rest)
  {
    hide PointAt, Utf16Decode, ShortUnescape, Meaning;
    PointStarts(s, piece, rest);
    if s[0] != BACKSLASH {
      PlainExactly(s, piece, rest);
    } else if |s| > 1 && s[1] == LETTER_U {
      NotShort();
      DecodeExactly(s, piece, rest);
    } else if |s| > 1 {
      MeaningExactly(s[1]);
    }
  }

  lemma PlainExactly(s: Text, piece: Text, rest: Text)
    requires s != [] && s[0] != BACKSLASH
    ensures PlainAt(true, s, piece, rest) <==> piece == [s[0]] && rest == s[1..]
  {
    assert s == [s[0]] + s[1..];
    if |piece| == 1 && s == piece + rest { assert piece == [s[0]] && rest == s[1..]; }
  }

  lemma PointStarts(s: Text, piece: Text, rest: Text)
    ensures PointAt(true, s, piece, rest) ==> |s| >= 2 && s[0] == BACKSLASH && s[1] == LETTER_U
  {
  }

  lemma NotShort()
    ensures Meaning(LETTER_U) == 0
  {
  }

  lemma ItemCutExactly(s: Text)
    requires s != []
    ensures FirstItem(s) == Failed(EndOfInput) <==> EscapeCut(s)
  {
    hide Utf16Decode, UnitCut;
    if |s| > 1 && s[0] == BACKSLASH && s[1] == LETTER_U { DecodeCutExactly(s); }
  }

  /** The characters of s, one after the other, are u; an escape cut off at the end is dropped. */
  ghost predicate Unescaped(s: Text, u: Text)
    decreases |s|
  {
    || (s == [] && u == [])
    || (EscapeCut(s) && u == [])
    || exists piece, more ::
         ItemAt(true, s, piece, more) && |more| < |s| && piece <= u && Unescaped(more, u[|piece|..])
  }

  lemma UnescapeFolds(s: Text)
    requires s != []
    ensures Unescape(s) ==
      match FirstItem(s)
      case Failed(f) => AtFault(f)
      case Got(t, rest) => Prepend(t, Unescape(rest))
  {
    hide Utf16Decode, ShortUnescape;
  }

  lemma PrependIs(t: Text, r: Result<Text>, u: Text)
    ensures Prepend(t, r) == Ok(u) <==> t <= u && r == Ok(u[|t|..])
  {
    if t <= u { assert t + u[|t|..] == u; }
    if Prepend(t, r) == Ok(u) { assert u[|t|..] == r.value; }
  }

  /** string_unescape, exactly. */
  lemma {:induction false} UnescapeExactly(s: Text, u: Text)
    ensures Unescape(s) == Ok(u) <==> Unescaped(s, u)
    decreases |s|
  {
    hide Unescape, ItemAt, EscapeCut, FirstItem, Prepend;
    if s == [] {
      EscapeEmpty();
      NothingCut();
      forall piece, more
        ensures !ItemAt(true, s, piece, more)
      {
        if ItemAt(true, s, piece, more) { ItemShrinks(true, s, piece, more); }
      }
    } else {
      UnescapeFolds(s);
      ItemCutExactly(s);
      forall piece, more
        ensures FirstItem(s) == Got(piece, more) <==> ItemAt(true, s, piece, more)
      {
        ItemExactly(s, piece, more);
      }
      if FirstItem(s).Got? {
        var t, rest := FirstItem(s).value, FirstItem(s).rest;
        PrependIs(t, Unescape(rest), u);
        if t <= u { UnescapeExactly(rest, u[|t|..]); }
      }
    }
  }

  lemma NothingCut()
    ensures !EscapeCut([])
  {
  }

  // ---- escaping what is not UTF-8 -----------------------------------------------------

  /** The length that a first octet announces. */
  function Announced(c: Octet): (n: nat) {
    if c >= 0xF0 then 4 else if c >= 0xE0 then 3 else if c >= 0xC0 then 2 else 1
  }

  /** Octets of a character behind its first one: any from 0x80 up pass. */
  predicate HighFrom(s: Text, i: nat, n: nat) { forall j :: i <= j < n && j < |s| ==> s[j] >= 0x80 }

  /** Read from the front, some character that is announced breaks off before an ASCII octet. */
  predicate Torn(s: Text)
    decreases |s|
  {
    s != [] && var n := Announced(s[0]);
    !HighFrom(s, 1, n) || (n <= |s| && Torn(s[n..]))
  }

  lemma {:induction false} ContinuationExactly(s: Text, n: nat, dw: nat)
    ensures Continuation(s, n, dw) == Failed(BadArgument) <==> !HighFrom(s, 0, n)
    ensures Continuation(s, n, dw).Got? <==> n <= |s| && HighFrom(s, 0, n)
    ensures Continuation(s, n, dw).Got? ==> Continuation(s, n, dw).rest == s[n..]
    decreases n
  {
    if n > 0 && s != [] {
      var t := s[1..];
      ContinuationExactly(t, n - 1, dw * 0x40 + s[0] % 0x40);
      assert forall j :: 0 <= j < |t| ==> t[j] == s[j + 1];
      assert HighFrom(s, 0, n) <==> s[0] >= 0x80 && HighFrom(t, 0, n - 1) by {
        if s[0] >= 0x80 && HighFrom(t, 0, n - 1) {
          forall j | 0 <= j < n && j < |s|
            ensures s[j] >= 0x80
          {
            if j > 0 { assert s[j] == t[j - 1]; }
          }
        }
      }
      if n - 1 <= |t| { assert t[n - 1..] == s[n..]; }
    }
  }

  lemma CodePointExactly(s: Text)
    requires s != []
    ensures var n := Announced(s[0]);
      && (CodePoint(s) == Failed(BadArgument) <==> !HighFrom(s, 1, n))
      && (CodePoint(s).Got? <==> n <= |s| && HighFrom(s, 1, n))
      && (CodePoint(s).Got? ==> CodePoint(s).rest == s[n..])
  {
    hide Continuation, HighFrom, CodePoint;
    var n, t := Announced(s[0]), s[1..];
    var dw := CodePointReads(s);
    HighShifts(s, n);
    ContinuationExactly(t, n - 1, dw);
    if n - 1 <= |t| { assert t[n - 1..] == s[n..]; }
  }

  lemma CodePointReads(s: Text) returns (dw: nat)
    requires s != []
    ensures CodePoint(s) == Continuation(s[1..], Announced(s[0]) - 1, dw)
  {
    dw := if s[0] >= 0xF0 then s[0] % 0x08
          else if s[0] >= 0xE0 then s[0] % 0x10
          else if s[0] >= 0xC0 then s[0] % 0x20
          else if s[0] >= 0x80 then 0xFFFFFF00 + s[0] as int
          else s[0];
    ContinuationEnds(s[1..], dw);
  }

  lemma HighShifts(s: Text, n: nat)
    requires s != [] && n >= 1
    ensures HighFrom(s, 1, n) <==> HighFrom(s[1..], 0, n - 1)
    ensures HighFrom(s, 1, 1)
  {
    var t := s[1..];
    assert forall j :: 0 <= j < |t| ==> t[j] == s[j + 1];
    if HighFrom(t, 0, n - 1) {
      forall j | 1 <= j < n && j < |s|
        ensures s[j] >= 0x80
      {
        assert s[j] == t[j - 1];
      }
    }
  }

  /** string_escape refuses exactly the strings with a torn character. */
  lemma {:induction false} EscapeRefusesExactly(s: Text)
    ensures Escape(s).Err? <==> Torn(s)
    decreases |s|
  {
    hide CodePoint, ShortEscape, EscapedPoint;
    if s != [] {
      var n := Announced(s[0]);
      if s[0] < 0x80 {
        EscapeRefusesExactly(s[1..]);
      } else {
        CodePointExactly(s);
        ShortIsAscii(s[0]);
        if CodePoint(s).Got? { EscapeRefusesExactly(s[n..]); }
      }
    }
  }

  lemma ShortIsAscii(c: Octet)
    ensures c >= 0x80 ==> ShortEscape(c) == 0
  {
  }

  /** An octet that continues nothing is sign-extended: its escape is a pair of surrogates. */
  lemma StrayOctet(c: Octet, rest: Text)
    requires 0x80 <= c <= 0xBF
    ensures Escape([c] + rest) == Prepend(Escaped(0xDBBF) + Escaped(0xDF00 + c), Escape(rest))
  {
    hide EscapedPoint, ShortEscape, Escaped;
    var s := [c] + rest;
    assert s[1..] == rest;
    ShortIsAscii(c);
    StrayPoint(c);
    assert CodePoint(s) == Got(0xFFFFFF00 + c as int, rest);
  }

  lemma StrayPoint(c: Octet)
    requires 0x80 <= c <= 0xBF
    ensures EscapedPoint(0xFFFFFF00 + c as int) == Escaped(0xDBBF) + Escaped(0xDF00 + c)
  {
    hide Escaped;
    var d := 0xFFFEFF00 + c as int;
    assert d / 0x400 == 0x3FFFBF && d % 0x400 == 0x300 + c;
  }
}
