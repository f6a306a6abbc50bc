/**
 * The printer of libjson against the grammar of RFC 8259: what it prints is a text of the value, read
 * strictly, exactly when no string or key has a control character without a short escape
 * (libjson/src/json.cpp).  And a text of a clean value, read strictly, is parsed as that value.
 */
module JsonPrinted {

  import opened Utf
  import opened Escapes
  import opened JsonValue
  import opened JsonGrammar
  import opened JsonLexer
  import opened JsonParser
  import opened JsonRoundTrip
  import opened JsonAccepts
  import opened JsonExact

  // ---- strings ------------------------------------------------------------------------

  /** A control character that is printed as it is. */
  predicate Raw(c: Octet) { c < 0x20 && c !in {8, 9, 10, 12, 13} }

  predicate NoRaw(s: Text) { forall i :: 0 <= i < |s| ==> !Raw(s[i]) }

  lemma RawExactly(c: Octet)
    ensures Raw(c) <==> c < 0x20 && ShortEscape(c) == 0
    ensures ShortEscape(c) != 0 ==> Meaning(ShortEscape(c)) == c && 0 < c < 0x80
  {
  }

  lemma HexDigitOf(d: nat)
    requires d < 16
    ensures HexOf(HexDigit(d), d)
  {
    DigitPlaces(d);
  }

  lemma EscapedUnit(w: nat, rest: Text)
    requires w < 0x10000
    ensures var s := Escaped(w) + rest;
      |s| >= 6 && s[0] == '\\' as int && s[1] == 'u' as int && FourHex(s[2..6], w) && s[6..] == rest
  {
    var s := Escaped(w) + rest;
    var a, b, c, d := w / 0x1000, w / 0x100 % 16, w / 16 % 16, w % 16;
    DigitsOfEscaped(w);
    HexDigitOf(a);
    HexDigitOf(b);
    HexDigitOf(c);
    HexDigitOf(d);
    hide HexOf, HexDigit;
    var t := s[2..6];
    assert t == [HexDigit(a), HexDigit(b), HexDigit(c), HexDigit(d)];
    assert HexOf(t[0], a) && HexOf(t[1], b) && HexOf(t[2], c) && HexOf(t[3], d);
  }

  /** The escape of a code point outside the surrogates is one character of a string. */
  lemma EscapedPointAt(cp: nat, t: Text, rest: Text)
    requires cp <= 0x10FFFF && !(0xD800 <= cp <= 0xDFFF) && Encodes(t, cp)
    ensures PointAt(false, EscapedPoint(cp) + rest, t, rest)
  {
    hide Escaped, FourHex, Encodes;
    if cp < 0x10000 {
      EscapedUnit(cp, rest);
    } else {
      var d := cp - 0x10000;
      var w1, w2 := 0xD800 + d / 0x400, 0xDC00 + d % 0x400;
      assert d / 0x400 % 0x400 == d / 0x400;
      assert EscapedPoint(cp) + rest == Escaped(w1) + (Escaped(w2) + rest);
      EscapedUnit(w1, Escaped(w2) + rest);
      EscapedUnit(w2, rest);
      assert UnitAt(Escaped(w2) + rest, w2, rest);
      assert cp == 0x10000 + 0x400 * (w1 - 0xD800) + (w2 - 0xDC00);
      assert PairAt(false, w1, Escaped(w2) + rest, t, rest);
    }
  }

  /** The escape of the first character is that character, read strictly. */
  lemma FirstPrinted(s: Text, rest: Text)
    requires s != [] && ValidUtf8(s) && !Raw(s[0])
    ensures ItemAt(false, EscapeOfFirst(s) + rest, s[..FirstChar(s)], rest)
    ensures var e := EscapeOfFirst(s) + rest; e != [] && !Starts(e, '"') && |rest| < |e|
  {
    hide PointAt, ShortEscape, Meaning, Utf16Encode, CodePoint, ValidUtf8, EscapedPoint;
    RawExactly(s[0]);
    var e := EscapeOfFirst(s) + rest;
    FirstOctet(s);
    if ShortEscape(s[0]) != 0 {
      assert e[0] == BACKSLASH && e[1] == ShortEscape(s[0]) && e[2..] == rest;
      assert s[..1] == [s[0]];
    } else if s[0] < 0x80 {
      assert e == [s[0]] + rest && s[..1] == [s[0]];
      PlainQuote(s[0]);
      assert PlainAt(false, e, s[..1], rest);
    } else {
      LongPrinted(s, rest);
    }
  }

  lemma FirstOctet(s: Text)
    requires s != [] && ValidUtf8(s)
    ensures s[0] < 0x80 ==> FirstChar(s) == 1
    ensures s[0] >= 0x80 ==> CharLength(s) > 1
    ensures s[0] < 0x80 ==> forall rest :: CharLength([s[0]] + rest) == 1
  {
  }

  lemma PlainQuote(c: Octet)
    requires ShortEscape(c) == 0
    ensures c != BACKSLASH && c != QUOTE
  {
  }

  lemma LongPrinted(s: Text, rest: Text)
    requires s != [] && ValidUtf8(s) && s[0] >= 0x80 && CharLength(s) > 1
    ensures PointAt(false, Utf16Encode(s).value + rest, s[..CharLength(s)], rest)
    ensures var e := Utf16Encode(s).value + rest; |e| > |rest| && e[0] == BACKSLASH
  {
    hide PointAt, EscapedPoint;
    PointOfChar(s);
    var cp := CodePoint(s).value;
    EncodeExactly(cp, s[..CharLength(s)]);
    EscapedPointAt(cp, s[..CharLength(s)], rest);
    PointEscape(cp, rest);
  }

  lemma PointEscape(cp: nat, rest: Text)
    ensures var e := EscapedPoint(cp) + rest; |e| > |rest| && e[0] == BACKSLASH
  {
  }

  /** A printed string is that string, read strictly, when it has no raw control. */
  lemma {:induction false} StringPrinted(s: Text, rest: Text)
    requires ValidUtf8(s) && NoRaw(s)
    ensures CharsAt(false, EscapedText(s) + [QUOTE] + rest, s, rest)
    decreases |s|
  {
    hide ItemAt, EscapeOfFirst, EscapedText, ValidUtf8;
    if s == [] {
      NothingEscaped(rest);
    } else {
      var n := FirstChar(s);
      var more := EscapedText(s[n..]) + [QUOTE] + rest;
      EscapedTextStep(s);
      StringPrinted(s[n..], rest);
      FirstPrinted(s, more);
      Regroup(EscapeOfFirst(s), EscapedText(s[n..]), [QUOTE], rest);
      assert s[..n] <= s && s[|s[..n]|..] == s[n..];
    }
  }

  lemma NothingEscaped(rest: Text)
    ensures EscapedText([]) + [QUOTE] + rest == [QUOTE] + rest
    ensures Starts([QUOTE] + rest, '"') && ([QUOTE] + rest)[1..] == rest
  {
  }

  // ---- values -------------------------------------------------------------------------

  /** No string and no key inside has a raw control. */
  predicate Plain(v: Value) {
    match v
    case Str(s) => NoRaw(s)
    case Arr(xs) => AllPlain(xs)
    case Obj(ms) => MembersPlain(ms)
    case _ => true
  }

  predicate AllPlain(xs: seq<Value>) { xs == [] || (Plain(xs[0]) && AllPlain(xs[1..])) }

  predicate MembersPlain(ms: seq<Member>) {
    ms == [] || (NoRaw(ms[0].key) && Plain(ms[0].val) && MembersPlain(ms[1..]))
  }

  lemma {:induction false} TrimSpaces(lax: bool, t: Text, s: Text)
    requires (forall i :: 0 <= i < |t| ==> Blank(lax, t[i])) && s != [] && !Blank(lax, s[0])
    ensures Trim(lax, t + s) == s
  {
    hide Blank;
    if t == [] {
      assert t + s == s;
    } else {
      assert (t + s)[1..] == t[1..] + s;
      TrimSpaces(lax, t[1..], s);
    }
  }

  lemma BreakIsBlank(pretty: bool, indent: nat, lax: bool)
    ensures forall i :: 0 <= i < |Break(pretty, indent)| ==> Blank(lax, Break(pretty, indent)[i])
  {
    assert Ascii(" \t\n\r") == [32, 9, 10, 13];
  }

  lemma TrimBreak(pretty: bool, indent: nat, s: Text)
    requires s != [] && !Blank(false, s[0])
    ensures Trim(false, Break(pretty, indent) + s) == s && Trim(false, s) == s
  {
    BreakIsBlank(pretty, indent, false);
    TrimSpaces(false, Break(pretty, indent), s);
  }

  lemma NumberPrinted(n: Int64, rest: Text)
    ensures IntegerAt(false, Decimal(n) + rest, n, rest)
  {
    var m: int := n;
    var k := if m < 0 then -m else m;
    var ds := Digits(k);
    DigitsRoundTrip(k);
    WorthIsValue(ds);
    ZeroDigits(k);
    assert Ascii("-") == [45];
    assert [45] + ds + rest == Ascii("-") + ds + rest;
    hide Digits, Worth, DigitsValue;
    assert Numeral(false, ds);
  }

  lemma ZeroDigits(n: nat)
    ensures n == 0 ==> |Digits(n)| == 1
  {
  }

  /** What a printed value starts with: not white space. */
  lemma ShownStarts(v: Value, pretty: bool, indent: nat, rest: Text)
    ensures var s := Shown(v, pretty, indent) + rest; s != [] && !Blank(false, s[0])
  {
    assert Ascii(" \t\n\r") == [32, 9, 10, 13];
    if v.Int? {
      var m: int := v.n;
      DigitsRoundTrip(if m < 0 then -m else m);
      assert (Decimal(v.n) + rest)[0] == Decimal(v.n)[0];
    }
    hide ShownElems, ShownMembers, Digits, EscapedText;
  }

  lemma {:induction false} ValuePrinted(v: Value, pretty: bool, indent: nat, rest: Text)
    requires WellFormed(v) && Utf8Inside(v) && Plain(v)
    ensures ValueAt(false, Shown(v, pretty, indent) + rest, v, rest)
    decreases v
  {
    hide Shown, ElemsAt, PairsAt, Trim, IntegerAt, CharsAt, ElemsText, MembersText, Quoted, Sorted;
    var s := Shown(v, pretty, indent) + rest;
    ShownStarts(v, pretty, indent, rest);
    TrimBreak(pretty, indent, s);
    match v
    case Arr(xs) =>
      ArrayText(xs, pretty, indent, rest);
      ArrayPrinted(xs, pretty, indent, rest);
    case Obj(ms) =>
      ObjectText(ms, pretty, indent, rest);
      ObjectPrinted(ms, pretty, indent, rest);
    case _ => ScalarPrinted(v, pretty, indent, rest);
  }

  lemma ScalarPrinted(v: Value, pretty: bool, indent: nat, rest: Text)
    requires IsScalar(v) && Utf8Inside(v) && Plain(v)
    ensures HereAt(false, Shown(v, pretty, indent) + rest, v, rest)
  {
    hide IntegerAt, CharsAt, EscapedText, ValidUtf8;
    WordsAre();
    match v
    case Int(n) => NumberPrinted(n, rest);
    case Str(u) =>
      StringPrinted(u, rest);
      var s := Quoted(u) + rest;
      assert s[0] == QUOTE && s[1..] == EscapedText(u) + [QUOTE] + rest;
      assert StoredAs(false, u, u);
    case _ =>
  }

  lemma {:induction false} ArrayPrinted(xs: seq<Value>, pretty: bool, indent: nat, rest: Text)
    requires AllWellFormed(xs) && AllUtf8(xs) && AllPlain(xs)
    ensures HereAt(false, [91] + ElemsText(xs, pretty, indent, rest), Arr(xs), rest)
    decreases xs, 1
  {
    hide Shown, ElemsAt, Trim, ElemsText;
    var s := [91] + ElemsText(xs, pretty, indent, rest);
    assert s[1..] == ElemsText(xs, pretty, indent, rest);
    if xs == [] {
      ArrayText(xs, pretty, indent, rest);
      assert Break(pretty, indent) + [93] + rest == Break(pretty, indent) + ([93] + rest);
      CloseTrimmed(pretty, indent, ']', 93, rest);
    } else {
      ElemsPrinted(xs, pretty, indent, rest);
    }
  }

  /** A closing bracket behind a break. */
  lemma CloseTrimmed(pretty: bool, indent: nat, c: char, o: Octet, rest: Text)
    requires o == c as int && o in {93, 125, 44, 58}
    ensures var t := Trim(false, Break(pretty, indent) + ([o] + rest)); Starts(t, c) && t[1..] == rest
    ensures var t := Trim(false, [o] + rest); Starts(t, c) && t[1..] == rest
  {
    assert Ascii(" \t\n\r") == [32, 9, 10, 13];
    TrimBreak(pretty, indent, [o] + rest);
  }

  lemma {:induction false} ElemsPrinted(xs: seq<Value>, pretty: bool, indent: nat, rest: Text)
    requires xs != [] && AllWellFormed(xs) && AllUtf8(xs) && AllPlain(xs)
    ensures ElemsAt(false, ElemsText(xs, pretty, indent, rest), xs, rest)
    decreases xs, 0
  {
    hide Shown, Trim, ElemsText, Break, WellFormed, Utf8Inside, Plain;
    var after := AfterElem(xs[1..], pretty, indent, rest);
    var here := Shown(xs[0], pretty, indent + 2) + after;
    var s := ElemsText(xs, pretty, indent, rest);
    ElemsTextSplit(xs, pretty, indent, rest);
    ValuePrinted(xs[0], pretty, indent + 2, after);
    ShownStarts(xs[0], pretty, indent + 2, after);
    TrimBreak(pretty, indent + 2, here);
    assert ValueAt(false, s, xs[0], after);
    ShownLonger(xs[0], pretty, indent + 2);
    if xs[1..] == [] {
      CloseTrimmed(pretty, indent, ']', 93, rest);
    } else {
      CloseTrimmed(pretty, indent, ',', 44, ElemsText(xs[1..], pretty, indent, rest));
      ElemsPrinted(xs[1..], pretty, indent, rest);
    }
    assert ElemsAfter(false, after, xs[1..], rest);
  }

  lemma ShownLonger(v: Value, pretty: bool, indent: nat)
    ensures |Shown(v, pretty, indent)| > 0
  {
    ShownStarts(v, pretty, indent, []);
    assert Shown(v, pretty, indent) + [] == Shown(v, pretty, indent);
  }

  lemma MembersAreMap(ms: seq<Member>)
    requires Sorted(ms)
    ensures MapOf(ms, ms) && Unique(ms)
  {
    hide Less;
    forall i, j | 0 <= i < j < |ms|
      ensures ms[i].key != ms[j].key
    {
      LessIrreflexive(ms[i].key);
    }
  }

  lemma {:induction false} ObjectPrinted(ms: seq<Member>, pretty: bool, indent: nat, rest: Text)
    requires Sorted(ms) && MembersWellFormed(ms) && MembersUtf8(ms) && MembersPlain(ms)
    ensures HereAt(false, [123] + MembersText(ms, pretty, indent, rest), Obj(ms), rest)
    decreases ms, 1
  {
    hide Shown, PairsAt, Trim, MembersText, Sorted, MapOf;
    var s := [123] + MembersText(ms, pretty, indent, rest);
    assert s[1..] == MembersText(ms, pretty, indent, rest);
    if ms == [] {
      ObjectText(ms, pretty, indent, rest);
      assert Break(pretty, indent) + [125] + rest == Break(pretty, indent) + ([125] + rest);
      CloseTrimmed(pretty, indent, '}', 125, rest);
    } else {
      PairsPrinted(ms, pretty, indent, rest);
      MembersAreMap(ms);
    }
  }

  lemma NamePrinted(m: Member, pretty: bool, indent: nat, rest: Text)
    requires ValidUtf8(m.key) && NoRaw(m.key)
    ensures var value := [32] + (Shown(m.val, pretty, indent) + rest);
      forall b :: Trim(false, b) == Quoted(m.key) + AfterKey(m, pretty, indent, rest) ==> NameAt(false, b, m.key, value)
  {
    hide Trim, CharsAt, EscapedText, ValidUtf8, Shown;
    var value := [32] + (Shown(m.val, pretty, indent) + rest);
    var after := AfterKey(m, pretty, indent, rest);
    var t := Quoted(m.key) + after;
    StringPrinted(m.key, after);
    assert t[0] == QUOTE && t[1..] == EscapedText(m.key) + [QUOTE] + after;
    CloseTrimmed(false, 0, ':', 58, value);
    assert after == [32] + ([58] + value) && Break(false, 0) == [32];
    assert StoredAs(false, m.key, m.key) && StringAt(false, t[1..], m.key, after);
  }

  lemma QuotedStarts(k: Text, rest: Text)
    ensures var t := Quoted(k) + rest; t != [] && !Blank(false, t[0]) && |t| > |rest|
  {
    assert Ascii(" \t\n\r") == [32, 9, 10, 13];
    hide EscapedText;
  }

  lemma {:induction false} PairsPrinted(ms: seq<Member>, pretty: bool, indent: nat, rest: Text)
    requires ms != [] && MembersWellFormed(ms) && MembersUtf8(ms) && MembersPlain(ms)
    ensures PairsAt(false, MembersText(ms, pretty, indent, rest), ms, rest)
    decreases ms, 0
  {
    hide Shown, Trim, MembersText, Break, Quoted, WellFormed, Utf8Inside, Plain, ValidUtf8, NoRaw, NameAt;
    var m, after := ms[0], AfterMember(ms[1..], pretty, indent, rest);
    var here := Quoted(m.key) + AfterKey(m, pretty, indent + 2, after);
    var value := [32] + (Shown(m.val, pretty, indent + 2) + after);
    var s := MembersText(ms, pretty, indent, rest);
    MembersTextSplit(ms, pretty, indent, rest);
    QuotedStarts(m.key, AfterKey(m, pretty, indent + 2, after));
    TrimBreak(pretty, indent + 2, here);
    NamePrinted(m, pretty, indent + 2, after);
    assert NameAt(false, s, m.key, value);
    ValuePrinted(m.val, pretty, indent + 2, after);
    ShownStarts(m.val, pretty, indent + 2, after);
    ShownLonger(m.val, pretty, indent + 2);
    SpaceTrimmed(Shown(m.val, pretty, indent + 2) + after);
    assert ValueAt(false, value, m.val, after);
    if ms[1..] == [] {
      CloseTrimmed(pretty, indent, '}', 125, rest);
    } else {
      CloseTrimmed(pretty, indent, ',', 44, MembersText(ms[1..], pretty, indent, rest));
      PairsPrinted(ms[1..], pretty, indent, rest);
    }
    assert PairsAfter(false, after, ms[1..], rest);
  }

  lemma SpaceTrimmed(s: Text)
    requires s != [] && !Blank(false, s[0])
    ensures Trim(false, [32] + s) == s && Trim(false, s) == s
  {
    assert Break(false, 0) == [32];
    TrimBreak(false, 0, s);
  }

  // ---- the layout ---------------------------------------------------------------------

  /** A break is a new line and the indent, or one space. */
  lemma BreakExactly(indent: nat)
    ensures Break(false, indent) == Ascii(" ")
    ensures |Break(true, indent)| == indent + 1 && Break(true, indent)[0] == '\n' as int
    ensures forall i :: 0 < i <= indent ==> Break(true, indent)[i] == ' ' as int
  {
  }

  /** How an array is laid out at an indent, in both forms. */
  lemma ExampleLayout()
    ensures Shown(Arr([Null]), true, 2) == Ascii("[\n    null\n  ]")
    ensures Shown(Arr([Null]), false, 2) == Ascii("[ null ]")
  {
    hide Shown, Break, Ascii;
    ExampleParts(true);
    ExampleParts(false);
    ExampleBreaks();
    ExampleTexts();
  }

  lemma ExampleBreaks()
    ensures Break(true, 2) == [10, 32, 32] && Break(true, 4) == [10, 32, 32, 32, 32]
    ensures Break(false, 2) == [32] && Break(false, 4) == [32]
  {
  }

  lemma ExampleTexts()
    ensures Ascii("[\n    null\n  ]") == [91, 10, 32, 32, 32, 32, 110, 117, 108, 108, 10, 32, 32, 93]
    ensures Ascii("[ null ]") == [91, 32, 110, 117, 108, 108, 32, 93]
  {
  }

  lemma ExampleParts(pretty: bool)
    ensures Shown(Arr([Null]), pretty, 2) == [91] + (Break(pretty, 4) + NULL_TEXT) + Break(pretty, 2) + [93]
  {
    hide Break;
    assert [Null][1..] == [];
    assert ShownElems([Null], true, pretty, 2) == [] + Break(pretty, 4) + NULL_TEXT + [];
  }

  // ---- what a strict text cannot contain ----------------------------------------------

  predicate Allowed(c: Octet) { c >= 0x20 || c == 9 || c == 10 || c == 13 }

  /** The text goes on with rest, and has only allowed octets before it. */
  predicate Clear(s: Text, rest: Text) {
    |rest| <= |s| && s[|s| - |rest|..] == rest && forall i :: 0 <= i < |s| - |rest| ==> Allowed(s[i])
  }

  lemma ClearOn(s: Text, m: Text, rest: Text)
    requires Clear(s, m) && Clear(m, rest)
    ensures Clear(s, rest)
  {
    var n := |s| - |m|;
    assert forall i :: 0 <= i < |m| ==> m[i] == s[n + i];
    forall i | 0 <= i < |s| - |rest|
      ensures Allowed(s[i])
    {
      if i >= n { assert s[i] == m[i - n]; }
    }
  }

  lemma ClearFirst(s: Text)
    requires s != [] && Allowed(s[0])
    ensures Clear(s, s[1..])
  {
  }

  lemma {:induction false} ClearTrim(s: Text)
    ensures Clear(s, Trim(false, s))
  {
    assert Ascii(" \t\n\r") == [32, 9, 10, 13];
    if s != [] && Blank(false, s[0]) {
      ClearTrim(s[1..]);
      ClearFirst(s);
      ClearOn(s, s[1..], Trim(false, s[1..]));
    }
  }

  lemma ClearFour(t: Text, w: nat)
    requires FourHex(t, w)
    ensures forall i :: 0 <= i < 4 ==> t[i] >= 0x20
  {
    FourHexIs(t, w);
  }

  lemma ClearUnit(s: Text, w: nat)
    requires |s| >= 6 && s[0] == '\\' as int && s[1] == 'u' as int && FourHex(s[2..6], w)
    ensures Clear(s, s[6..])
  {
    hide FourHex;
    ClearFour(s[2..6], w);
    var t := s[2..6];
    assert t[0] == s[2] && t[1] == s[3] && t[2] == s[4] && t[3] == s[5];
    assert s == s[..6] + s[6..];
    ClearFront(s[..6], s[6..]);
  }

  lemma ClearItem(s: Text, piece: Text, rest: Text)
    requires ItemAt(false, s, piece, rest)
    ensures Clear(s, rest)
  {
    hide FourHex;
    if PlainAt(false, s, piece, rest) {
      PlainClear(s);
      assert s[|piece|..] == rest;
    } else if PointAt(false, s, piece, rest) {
      var w: nat :| FourHex(s[2..6], w)
        && if 0xD800 <= w <= 0xDBFF then PairAt(false, w, s[6..], piece, rest)
           else Encodes(piece, w) && rest == s[6..] && !(0xDC00 <= w <= 0xDFFF);
      ClearUnit(s, w);
      if 0xD800 <= w <= 0xDBFF {
        var w2: nat :| UnitAt(s[6..], w2, rest);
        ClearUnit(s[6..], w2);
        ClearOn(s, s[6..], rest);
      }
    } else {
      MeaningPrintable(s[1]);
    }
  }

  lemma MeaningPrintable(c: Octet)
    requires Meaning(c) != 0
    ensures c >= 0x20
  {
  }

  lemma PlainClear(s: Text)
    requires CharLength(s) > 0 && s[0] >= 0x20
    ensures forall i :: 0 <= i < CharLength(s) ==> s[i] >= 0x20
  {
  }

  lemma {:induction false} ClearChars(s: Text, str: Text, rest: Text)
    requires CharsAt(false, s, str, rest)
    ensures Clear(s, rest) && |rest| < |s|
    decreases |s|
  {
    hide ItemAt;
    if Starts(s, '"') {
      ClearFirst(s);
    } else {
      var piece, more :| ItemAt(false, s, piece, more) && |more| < |s| && piece <= str
        && CharsAt(false, more, str[|piece|..], rest);
      ClearItem(s, piece, more);
      ClearChars(more, str[|piece|..], rest);
      ClearOn(s, more, rest);
    }
  }

  lemma ClearNumber(s: Text, n: int, rest: Text)
    requires IntegerAt(false, s, n, rest)
    ensures Clear(s, rest)
  {
    hide Worth;
    assert Ascii("-") == [45];
    var ds :| Numeral(false, ds) && (s == ds + rest || s == Ascii("-") + ds + rest);
    if s == ds + rest {
      ClearFront(ds, rest);
    } else {
      ClearFront([45] + ds, rest);
    }
  }

  lemma ClearFront(t: Text, rest: Text)
    requires forall i :: 0 <= i < |t| ==> Allowed(t[i])
    ensures Clear(t + rest, rest)
  {
    assert (t + rest)[|t|..] == rest;
  }

  lemma ClearWord(w: string, rest: Text)
    requires forall i :: 0 <= i < |w| ==> 0x20 <= w[i] as int < 0x80
    ensures Clear(Ascii(w) + rest, rest)
  {
    assert (Ascii(w) + rest)[|w|..] == rest;
  }

  lemma {:induction false} ClearValue(s: Text, v: Value, rest: Text)
    requires ValueAt(false, s, v, rest)
    ensures Clear(s, rest)
    decreases |s|, 1
  {
    hide Trim, IntegerAt, StringAt, ElemsAt, PairsAt, MapOf, Clear;
    var t := Trim(false, s);
    ClearTrim(s);
    ClearHere(t, v, rest);
    ClearOn(s, t, rest);
  }

  lemma {:induction false} ClearHere(t: Text, v: Value, rest: Text)
    requires HereAt(false, t, v, rest)
    ensures Clear(t, rest)
    decreases |t|, 0
  {
    hide Trim, IntegerAt, CharsAt, ElemsAt, PairsAt, MapOf, Clear;
    match v
    case Arr(xs) =>
      ClearFirst(t);
      if ElemsAt(false, t[1..], xs, rest) {
        ClearElems(t[1..], xs, rest);
      } else {
        ClearClose(t[1..], ']');
      }
      ClearOn(t, t[1..], rest);
    case Obj(ms) =>
      ClearFirst(t);
      if EmptyAt(false, t[1..], |ms|, '}', rest) {
        ClearClose(t[1..], '}');
      } else {
        var ps :| PairsAt(false, t[1..], ps, rest) && MapOf(ms, ps);
        ClearPairs(t[1..], ps, rest);
      }
      ClearOn(t, t[1..], rest);
    case _ => ClearScalar(t, v, rest);
  }

  lemma ClearScalar(t: Text, v: Value, rest: Text)
    requires HereAt(false, t, v, rest) && IsScalar(v)
    ensures Clear(t, rest)
  {
    hide IntegerAt, StringAt, Clear, Ascii;
    match v
    case Null => ClearWord("null", rest);
    case Bool(b) => ClearWord(if b then "true" else "false", rest);
    case Int(n) => ClearNumber(t, n, rest);
    case Str(u) => ClearString(t, u, rest);
    case _ =>
  }

  lemma ClearString(t: Text, u: Text, rest: Text)
    requires Starts(t, '"') && StringAt(false, t[1..], u, rest)
    ensures Clear(t, rest)
  {
    hide CharsAt, Clear;
    ClearFirst(t);
    var str :| CharsAt(false, t[1..], str, rest);
    ClearChars(t[1..], str, rest);
    ClearOn(t, t[1..], rest);
  }

  /** White space and one character. */
  lemma ClearClose(s: Text, c: char)
    requires Starts(Trim(false, s), c) && 0x20 <= c as int < 0x80
    ensures Clear(s, Trim(false, s)[1..])
  {
    hide Trim, Clear;
    ClearTrim(s);
    ClearFirst(Trim(false, s));
    ClearOn(s, Trim(false, s), Trim(false, s)[1..]);
  }

  lemma {:induction false} ClearElems(s: Text, xs: seq<Value>, rest: Text)
    requires ElemsAt(false, s, xs, rest)
    ensures Clear(s, rest)
    decreases |s|, 2
  {
    hide Trim, ValueAt, Clear;
    var m :| |m| < |s| && ValueAt(false, s, xs[0], m) && ElemsAfter(false, m, xs[1..], rest);
    ClearValue(s, xs[0], m);
    var t := Trim(false, m);
    ClearClose(m, if xs[1..] == [] then ']' else ',');
    ClearOn(s, m, t[1..]);
    if xs[1..] != [] {
      ClearElems(t[1..], xs[1..], rest);
      ClearOn(s, t[1..], rest);
    }
  }

  lemma ClearName(s: Text, key: Text, rest: Text)
    requires NameAt(false, s, key, rest)
    ensures Clear(s, rest)
  {
    hide Trim, CharsAt, Clear;
    var t := Trim(false, s);
    var u, more :| StringAt(false, t[1..], u, more) && Starts(Trim(false, more), ':') && rest == Trim(false, more)[1..];
    var str :| CharsAt(false, t[1..], str, more);
    ClearTrim(s);
    ClearFirst(t);
    ClearChars(t[1..], str, more);
    ClearClose(more, ':');
    ClearOn(t, t[1..], more);
    ClearOn(s, t, more);
    ClearOn(s, more, rest);
  }

  lemma {:induction false} ClearPairs(s: Text, ps: seq<Member>, rest: Text)
    requires PairsAt(false, s, ps, rest)
    ensures Clear(s, rest)
    decreases |s|, 2
  {
    hide Trim, ValueAt, NameAt, Clear;
    var m, more :| && |more| < |m| < |s| && NameAt(false, s, ps[0].key, m)
      && ValueAt(false, m, ps[0].val, more) && PairsAfter(false, more, ps[1..], rest);
    ClearName(s, ps[0].key, m);
    ClearValue(m, ps[0].val, more);
    ClearOn(s, m, more);
    var t := Trim(false, more);
    ClearClose(more, if ps[1..] == [] then '}' else ',');
    ClearOn(s, more, t[1..]);
    if ps[1..] != [] {
      ClearPairs(t[1..], ps[1..], rest);
      ClearOn(s, t[1..], rest);
    }
  }

  // ---- a raw control shows ------------------------------------------------------------

  lemma RawForbidden(c: Octet)
    ensures Raw(c) ==> !Allowed(c)
  {
  }

  lemma InParts(a: Text, b: Text, c: Octet)
    ensures c in a + b <==> c in a || c in b
  {
    if c in a {
      var i :| 0 <= i < |a| && a[i] == c;
      assert (a + b)[i] == c;
    }
    if c in b {
      var i :| 0 <= i < |b| && b[i] == c;
      assert (a + b)[|a| + i] == c;
    }
  }

  lemma {:induction false} RawEscaped(s: Text, c: Octet)
    requires ValidUtf8(s) && c in s && Raw(c)
    ensures c in EscapedText(s)
    decreases |s|
  {
    hide EscapedText, EscapeOfFirst, ValidUtf8;
    var n := FirstChar(s);
    EscapedTextStep(s);
    InParts(EscapeOfFirst(s), EscapedText(s[n..]), c);
    if s[0] == c {
      RawFirst(s);
    } else {
      RawLater(s, c);
      RawEscaped(s[n..], c);
    }
  }

  lemma RawFirst(s: Text)
    requires s != [] && ValidUtf8(s) && Raw(s[0])
    ensures s[0] in EscapeOfFirst(s)
  {
    RawExactly(s[0]);
    assert EscapeOfFirst(s) == [s[0]];
  }

  lemma RawLater(s: Text, c: Octet)
    requires s != [] && ValidUtf8(s) && c in s && s[0] != c && Raw(c)
    ensures c in s[FirstChar(s)..]
  {
    var n := FirstChar(s);
    InParts(s[..n], s[n..], c);
    assert s == s[..n] + s[n..];
    assert forall i :: 0 < i < n ==> s[i] >= 0x80;
  }

  /** Some octet of the text is a raw control. */
  ghost predicate HasRaw(t: Text) { exists c: Octet :: Raw(c) && c in t }

  lemma RawParts(a: Text, b: Text)
    ensures HasRaw(a + b) <==> HasRaw(a) || HasRaw(b)
  {
    forall c: Octet
      ensures c in a + b <==> c in a || c in b
    {
      InParts(a, b, c);
    }
  }

  lemma RawString(s: Text)
    requires ValidUtf8(s) && !NoRaw(s)
    ensures HasRaw(Quoted(s))
  {
    hide EscapedText, ValidUtf8;
    var i :| 0 <= i < |s| && Raw(s[i]);
    RawEscaped(s, s[i]);
    InParts([QUOTE], EscapedText(s), s[i]);
    InParts([QUOTE] + EscapedText(s), [QUOTE], s[i]);
  }

  lemma {:induction false} RawShown(v: Value, pretty: bool, indent: nat)
    requires Utf8Inside(v) && !Plain(v)
    ensures HasRaw(Shown(v, pretty, indent))
    decreases v
  {
    hide HasRaw, Break, Quoted, ValidUtf8;
    match v
    case Str(s) => RawString(s);
    case Arr(xs) =>
      RawElems(xs, true, pretty, indent);
      RawInside([91], ShownElems(xs, true, pretty, indent), Break(pretty, indent), [93]);
    case Obj(ms) =>
      RawMembers(ms, true, pretty, indent);
      RawInside([123], ShownMembers(ms, true, pretty, indent), Break(pretty, indent), [125]);
    case _ =>
  }

  lemma RawInside(a: Text, t: Text, b: Text, c: Text)
    requires HasRaw(t)
    ensures HasRaw(a + t + b + c)
  {
    hide HasRaw;
    RawParts(a, t);
    RawParts(a + t, b);
    RawParts(a + t + b, c);
  }

  lemma {:induction false} RawElems(xs: seq<Value>, first: bool, pretty: bool, indent: nat)
    requires AllUtf8(xs) && !AllPlain(xs)
    ensures HasRaw(ShownElems(xs, first, pretty, indent))
    decreases xs
  {
    hide HasRaw, Break, Shown, Utf8Inside, Plain;
    var a, b := if first then [] else [44], Break(pretty, indent + 2);
    var h, more := Shown(xs[0], pretty, indent + 2), ShownElems(xs[1..], false, pretty, indent);
    if Plain(xs[0]) {
      RawElems(xs[1..], false, pretty, indent);
    } else {
      RawShown(xs[0], pretty, indent + 2);
    }
    RawParts(a + b, h);
    RawParts(a + b + h, more);
  }

  lemma {:induction false} RawMembers(ms: seq<Member>, first: bool, pretty: bool, indent: nat)
    requires MembersUtf8(ms) && !MembersPlain(ms)
    ensures HasRaw(ShownMembers(ms, first, pretty, indent))
    decreases ms
  {
    hide HasRaw, Break, Shown, Utf8Inside, Plain, Quoted, ValidUtf8, NoRaw;
    var a, b := if first then [] else [44], Break(pretty, indent + 2);
    var h, more := ShownMember(ms[0], pretty, indent + 2), ShownMembers(ms[1..], false, pretty, indent);
    var k, w := Quoted(ms[0].key), Shown(ms[0].val, pretty, indent + 2);
    RawParts(k, COLON_TEXT);
    RawParts(k + COLON_TEXT, w);
    if !NoRaw(ms[0].key) {
      RawString(ms[0].key);
    } else if !Plain(ms[0].val) {
      RawShown(ms[0].val, pretty, indent + 2);
    } else {
      RawMembers(ms[1..], false, pretty, indent);
    }
    RawParts(a + b, h);
    RawParts(a + b + h, more);
  }

  /**
   * The printer, for every value of valid UTF-8: what it prints, pretty or not and at any indent, is a
   * text of the value by RFC 8259 if and only if no raw control is inside.
   */
  lemma PrintedExactly(v: Value, pretty: bool, indent: nat, rest: Text)
    requires WellFormed(v) && Utf8Inside(v)
    ensures ValueAt(false, Shown(v, pretty, indent) + rest, v, rest) <==> Plain(v)
  {
    hide ValueAt, Shown, WellFormed, Utf8Inside, Plain;
    if Plain(v) {
      ValuePrinted(v, pretty, indent, rest);
    } else if ValueAt(false, Shown(v, pretty, indent) + rest, v, rest) {
      RawShown(v, pretty, indent);
      ClearValue(Shown(v, pretty, indent) + rest, v, rest);
      RawNotClear(Shown(v, pretty, indent), rest);
    }
  }

  lemma RawNotClear(t: Text, rest: Text)
    requires HasRaw(t)
    ensures !Clear(t + rest, rest)
  {
    var c: Octet :| Raw(c) && c in t;
    var i :| 0 <= i < |t| && t[i] == c;
    RawForbidden(c);
    assert (t + rest)[i] == c;
  }
}
