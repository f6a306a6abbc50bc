/**
 * Which texts the parser of libjson takes, and as what: exactly those of the lax grammar, and those
 * that end with the input behind an opening bracket or a comma (libjson/src/lexer.cpp,
 * libjson/src/parser.cpp).
 */
module JsonAccepts {

  import opened Utf
  import opened Escapes
  import opened JsonValue
  import opened JsonGrammar
  import opened JsonLexer
  import opened JsonParser

  // ---- white space and punctuation ----------------------------------------------------

  lemma SpaceExactly(c: Octet)
    ensures Space(c) <==> Blank(true, c)
  {
    assert Ascii(" \t\n\r") == [32, 9, 10, 13];
  }

  lemma {:induction false} NextTokenTrims(s: Text)
    ensures var t := Trim(true, s);
      && NextToken(s) == (if t == [] then AT_END else TokenHere(t))
      && (t != [] ==> !Blank(true, t[0]))
  {
    hide TokenHere, Blank, Space;
    if s != [] {
      SpaceExactly(s[0]);
      if Blank(true, s[0]) { NextTokenTrims(s[1..]); }
    }
  }

  /** The character of a punctuation token. */
  function CharOf(t: Token): (c: char)
    requires !t.Scalar? && !t.End?
  {
    match t
    case LCB => '{'
    case RCB => '}'
    case LB => '['
    case RB => ']'
    case Colon => ':'
    case Comma => ','
  }

  lemma PunctuationExactly(s: Text, p: Token, rest: Text)
    requires s != [] && !p.Scalar? && !p.End?
    ensures TokenHere(s) == Tok(p, rest) <==> Starts(s, CharOf(p)) && rest == s[1..]
  {
    hide Keyword, Number, StringToken;
    KeywordTokens(s);
    NumberTokens(s);
    StringTokens(s[1..]);
  }

  lemma KeywordTokens(s: Text)
    ensures forall w, v ::
      Keyword(s, w, v).Tok? ==> Keyword(s, w, v).token == Scalar(v) || Keyword(s, w, v).token == End
  {
  }

  lemma NumberTokens(s: Text)
    requires s != []
    ensures Number(s).Tok? ==> Number(s).token.Scalar? || Number(s).token == End
  {
  }

  lemma StringTokens(s: Text)
    ensures StringToken(s).Tok? ==> StringToken(s).token.Scalar? || StringToken(s).token == End
  {
    hide StringBody, Unescape;
  }

  // ---- literal names ------------------------------------------------------------------

  lemma KeywordExactly(s: Text, word: Text, v0: Value, v: Value, rest: Text)
    requires word != [] && 10 !in word
    ensures Keyword(s, word, v0) == Tok(Scalar(v), rest) <==> v == v0 && s == word + rest && rest != []
    ensures Keyword(s, word, v0) == AT_END <==> |s| <= |word| && 10 !in s
  {
    if s == word + rest {
      assert s[..|word|] == word && s[|word|..] == rest;
    }
    if |s| >= |word| && s[..|word|] == word {
      assert s == word + s[|word|..];
      if |s| == |word| { assert s == word; }
    }
  }

  lemma WordsAre()
    ensures NULL_TEXT == Ascii("null") && TRUE_TEXT == Ascii("true") && FALSE_TEXT == Ascii("false")
  {
  }

  // ---- numbers ------------------------------------------------------------------------

  /** What cannot go on a number. */
  predicate Stops(s: Text) {
    s != [] && !Numeric(s[0]) && s[0] !in Ascii(".eE")
  }

  lemma {:induction false} WorthSnoc(ds: Text, c: Octet)
    ensures Worth(ds + [c]) == 10 * Worth(ds) + (c as int - 48)
  {
    if ds == [] {
      assert [c][1..] == [] && ds + [c] == [c];
    } else {
      assert (ds + [c])[1..] == ds[1..] + [c];
      WorthSnoc(ds[1..], c);
      Times10(ds[0] as int - 48, PowerOf10(|ds| - 1));
    }
  }

  lemma Times10(a: int, p: int)
    ensures a * (10 * p) == 10 * (a * p)
  {
  }

  lemma {:induction false} WorthIsValue(ds: Text)
    ensures Worth(ds) == DigitsValue(ds)
  {
    if ds != [] {
      var front := ds[..|ds| - 1];
      WorthIsValue(front);
      WorthSnoc(front, ds[|ds| - 1]);
      assert front + [ds[|ds| - 1]] == ds;
    }
  }

  lemma RunUnique(s: Text, ds: Text, rest: Text)
    requires s == ds + rest && (forall i :: 0 <= i < |ds| ==> Numeric(ds[i])) && (rest != [] ==> !Numeric(rest[0]))
    ensures DigitRun(s) == |ds| && s[..|ds|] == ds && s[|ds|..] == rest
  {
    assert forall i :: 0 <= i < |ds| ==> s[i] == ds[i];
    assert rest != [] ==> s[|ds|] == rest[0];
  }

  /** The digits at the front are the only numeral that something other than a number follows. */
  lemma NumeralUnique(s: Text, ds: Text, rest: Text)
    requires Numeral(true, ds) && s == ds + rest && (rest == [] || Stops(rest))
    ensures ds == s[..DigitRun(s)] && rest == s[DigitRun(s)..] && Digit(s[0]) && s[0] != 48
  {
    RunUnique(s, ds, rest);
    assert s[0] == ds[0];
  }

  lemma NumeralFront(s: Text)
    requires s != [] && Digit(s[0]) && s[0] != 48
    ensures var k := DigitRun(s); Numeral(true, s[..k]) && s == s[..k] + s[k..] && k > 0
  {
  }

  /** The number that s starts with, worth n, and what stops it. */
  ghost predicate UnsignedAt(negative: bool, s: Text, n: int, rest: Text) {
    exists ds :: Numeral(true, ds) && s == ds + rest && n == if negative then -Worth(ds) else Worth(ds)
  }

  lemma UnsignedOther(negative: bool, s: Text, n: int, rest: Text)
    requires s == [] || !Digit(s[0]) || s[0] == 48
    ensures !(Unsigned(negative, s).Tok? && Unsigned(negative, s).token.Scalar?)
    ensures !UnsignedAt(negative, s, n, rest) && !Numeral(true, s)
    ensures Unsigned(negative, s) == AT_END <==> s == [] || s == Ascii("0")
  {
    assert forall ds :: Numeral(true, ds) && s == ds + rest ==> ds[0] == s[0];
    assert Ascii("0") == [48];
  }

  lemma UnsignedDigits(negative: bool, s: Text)
    requires s != [] && Digit(s[0]) && s[0] != 48
    ensures var k := DigitRun(s);
      Unsigned(negative, s) ==
        if k == |s| then AT_END
        else if Stops(s[k..]) then IntegerToken(negative, s[..k], s[k..])
        else Throws(RealNumber)
  {
    hide IntegerToken, DigitRun, Stops;
    StopsAt(s, DigitRun(s));
  }

  lemma StopsAt(s: Text, k: nat)
    requires k <= |s|
    ensures Stops(s[k..]) <==> k < |s| && !Digit(s[k]) && s[k] != 46 && s[k] != 101 && s[k] != 69
  {
    assert Ascii(".eE") == [46, 101, 69];
  }

  /** The unsigned part of a number. */
  lemma UnsignedExactly(negative: bool, s: Text, v: Value, rest: Text)
    ensures Unsigned(negative, s) == Tok(Scalar(v), rest) <==>
      v.Int? && Stops(rest) && UnsignedAt(negative, s, v.n, rest)
    ensures Unsigned(negative, s) == AT_END <==> s == [] || OpenNumeral(s)
  {
    hide DigitsValue, Worth, DigitRun, Unsigned, Numeral, Stops;
    if s == [] || !Digit(s[0]) || s[0] == 48 {
      UnsignedOther(negative, s, if v.Int? then v.n else 0, rest);
    } else {
      var k := DigitRun(s);
      UnsignedDigits(negative, s);
      NumeralFront(s);
      WorthIsValue(s[..k]);
      var n := if negative then -Worth(s[..k]) else Worth(s[..k]);
      assert UnsignedAt(negative, s, n, s[k..]);
      if v.Int? && Stops(rest) && UnsignedAt(negative, s, v.n, rest) {
        var ds :| Numeral(true, ds) && s == ds + rest && v.n == if negative then -Worth(ds) else Worth(ds);
        NumeralUnique(s, ds, rest);
        StopsNonempty(rest);
      }
      WholeNumeral(s);
    }
  }

  lemma StopsNonempty(s: Text)
    ensures Stops(s) ==> s != []
  {
  }

  lemma WholeNumeral(s: Text)
    requires s != [] && Digit(s[0]) && s[0] != 48
    ensures OpenNumeral(s) <==> DigitRun(s) == |s|
  {
    NumeralFront(s);
    if Numeral(true, s) {
      assert s == s + [];
      NumeralUnique(s, s, []);
    }
    if DigitRun(s) == |s| { assert s[..|s|] == s; }
    assert Ascii("0") == [48];
  }

  lemma MinusApart(s: Text, ds: Text, rest: Text)
    requires s != []
    ensures s == Ascii("-") + ds + rest <==> s[0] == 45 && s[1..] == ds + rest
  {
    assert Ascii("-") == [45];
    assert Ascii("-") + ds + rest == [45] + (ds + rest);
    assert ([45] + (ds + rest))[1..] == ds + rest;
    assert s == [s[0]] + s[1..];
  }

  lemma NumberExactly(s: Text, v: Value, rest: Text)
    requires s != [] && (Digit(s[0]) || s[0] == 45)
    ensures Number(s) == Tok(Scalar(v), rest) <==> v.Int? && Stops(rest) && IntegerAt(true, s, v.n, rest)
    ensures Number(s) == AT_END <==> OpenNumeral(s) || (Starts(s, '-') && (|s| == 1 || OpenNumeral(s[1..])))
  {
    hide Unsigned, Worth, Stops;
    forall ds
      ensures s == Ascii("-") + ds + rest <==> s[0] == 45 && s[1..] == ds + rest
    {
      MinusApart(s, ds, rest);
    }
    assert Ascii("0") == [48];
    UnsignedExactly(s[0] == 45, if s[0] == 45 then s[1..] else s, v, rest);
    assert s[0] == 45 ==> forall ds :: Numeral(true, ds) ==> s != ds + rest by {
      forall ds | Numeral(true, ds) && s == ds + rest
        ensures s[0] != 45
      {
        assert s[0] == ds[0];
      }
    }
  }

  // ---- strings ------------------------------------------------------------------------

  lemma BodyFolds(s: Text)
    requires s != [] && s[0] != QUOTE
    ensures StringBody(s) ==
      match FirstItem(s)
      case Got(t, rest) => Before(t, StringBody(rest))
      case Failed(f) =>
        if f.EndOfInput? then Cut
        else if |s| > 1 && s[1] == LETTER_U then Bad(InvalidArgument)
        else Bad(ParsingError)
  {
    hide Utf16Decode, ShortUnescape;
  }

  lemma BeforeIs(t: Text, r: StringRead, str: Text, rest: Text)
    ensures Before(t, r) == Body(str, rest) <==> t <= str && r == Body(str[|t|..], rest)
    ensures Before(t, r) == Cut <==> r == Cut
  {
    if t <= str { assert t + str[|t|..] == str; }
    if Before(t, r) == Body(str, rest) { assert str[|t|..] == r.str; }
  }

  lemma ItemsAre(s: Text)
    requires s != []
    ensures forall piece, more :: FirstItem(s) == Got(piece, more) <==> ItemAt(true, s, piece, more)
    ensures FirstItem(s) == Failed(EndOfInput) <==> EscapeCut(s)
  {
    hide FirstItem, ItemAt, EscapeCut;
    ItemCutExactly(s);
    forall piece, more
      ensures FirstItem(s) == Got(piece, more) <==> ItemAt(true, s, piece, more)
    {
      ItemExactly(s, piece, more);
    }
  }

  /** The string loop reads characters up to the closing quote. */
  lemma {:induction false} BodyExactly(s: Text, str: Text, rest: Text)
    ensures StringBody(s) == Body(str, rest) <==> CharsAt(true, s, str, rest)
    decreases |s|
  {
    hide StringBody, ItemAt, EscapeCut, FirstItem, Before;
    if s == [] {
      NoBody();
      NoItems(true, s);
    } else if s[0] == QUOTE {
      QuoteEnds(s);
    } else {
      BodyFolds(s);
      ItemsAre(s);
      if FirstItem(s).Got? {
        var t, more := FirstItem(s).value, FirstItem(s).rest;
        BeforeIs(t, StringBody(more), str, rest);
        if t <= str { BodyExactly(more, str[|t|..], rest); }
      }
    }
  }

  lemma NoBody()
    ensures StringBody([]) == Cut
  {
  }

  lemma QuoteEnds(s: Text)
    requires s != [] && s[0] == QUOTE
    ensures StringBody(s) == Body([], s[1..])
  {
  }

  lemma NoItems(lax: bool, s: Text)
    requires s == []
    ensures forall piece, more :: !ItemAt(lax, s, piece, more)
  {
    hide ItemAt;
    forall piece, more
      ensures !ItemAt(lax, s, piece, more)
    {
      if ItemAt(lax, s, piece, more) { ItemShrinks(lax, s, piece, more); }
    }
  }

  lemma {:induction false} CutExactly(s: Text)
    ensures StringBody(s) == Cut <==> OpenString(s)
    decreases |s|
  {
    hide StringBody, ItemAt, EscapeCut, FirstItem, Before;
    if s == [] {
      NoBody();
    } else if s[0] == QUOTE {
      QuoteEnds(s);
    } else {
      BodyFolds(s);
      ItemsAre(s);
      if FirstItem(s).Got? {
        var t, more := FirstItem(s).value, FirstItem(s).rest;
        BeforeIs(t, StringBody(more), [], []);
        CutExactly(more);
      }
    }
  }

  lemma StringExactly(s: Text, v: Value, rest: Text)
    ensures StringToken(s) == Tok(Scalar(v), rest) <==> v.Str? && StringAt(true, s, v.s, rest)
    ensures StringToken(s) == AT_END <==> OpenString(s)
  {
    hide StringBody, Unescape, CharsAt, Unescaped, OpenString;
    CutExactly(s);
    forall str
      ensures StringBody(s) == Body(str, rest) <==> CharsAt(true, s, str, rest)
    {
      BodyExactly(s, str, rest);
    }
    if v.Str? {
      forall str
        ensures Unescape(str) == Ok(v.s) <==> Unescaped(str, v.s)
      {
        UnescapeExactly(str, v.s);
      }
    }
  }

  // ---- tokens -------------------------------------------------------------------------

  /** What follows a scalar, for it to be read as a token of its own. */
  predicate Ends(v: Value, rest: Text) {
    match v
    case Null | Bool(_) => rest != []
    case Int(_) => Stops(rest)
    case _ => true
  }

  predicate IsScalar(v: Value) { !v.Arr? && !v.Obj? }

  lemma HereStarts(s: Text, v: Value, rest: Text)
    requires IsScalar(v) && HereAt(true, s, v, rest)
    ensures s != []
    ensures v.Null? ==> s[0] == 110
    ensures v.Bool? ==> s[0] == if v.b then 116 else 102
    ensures v.Int? ==> Digit(s[0]) || s[0] == 45
    ensures v.Str? ==> s[0] == QUOTE
  {
    hide StringAt, Worth;
    if v.Int? {
      var ds :| Numeral(true, ds) && (s == ds + rest || s == Ascii("-") + ds + rest);
      MinusFirst(ds, rest);
    }
  }

  lemma MinusFirst(ds: Text, rest: Text)
    ensures |Ascii("-") + ds + rest| > 0 && (Ascii("-") + ds + rest)[0] == 45
  {
  }

  /** A scalar token is a scalar of the lax grammar that ends where it must. */
  lemma ScalarExactly(s: Text, v: Value, rest: Text)
    requires s != []
    ensures TokenHere(s) == Tok(Scalar(v), rest) <==> IsScalar(v) && HereAt(true, s, v, rest) && Ends(v, rest)
  {
    hide Keyword, Number, StringToken, IntegerAt, StringAt, Stops;
    WordsAre();
    if IsScalar(v) && HereAt(true, s, v, rest) { HereStarts(s, v, rest); }
    if s[0] == 110 {
      KeywordExactly(s, NULL_TEXT, Null, v, rest);
    } else if s[0] == 116 {
      KeywordExactly(s, TRUE_TEXT, Bool(true), v, rest);
    } else if s[0] == 102 {
      KeywordExactly(s, FALSE_TEXT, Bool(false), v, rest);
    } else if Digit(s[0]) || s[0] == 45 {
      NumberExactly(s, v, rest);
    } else if s[0] == QUOTE {
      StringExactly(s[1..], v, rest);
    }
  }

  /** The end token comes exactly where the input is unfinished. */
  lemma EndExactly(s: Text)
    ensures NextToken(s).Tok? && NextToken(s).token == End <==> Unfinished(s)
    ensures NextToken(s).Tok? && NextToken(s).token == End ==> NextToken(s) == AT_END
  {
    hide NextToken, Keyword, Number, StringToken, OpenString, Trim, OpenNumeral;
    NextTokenTrims(s);
    var t := Trim(true, s);
    if t != [] {
      WordsAre();
      OpenDigits(t);
      if t[0] == 110 {
        KeywordExactly(t, NULL_TEXT, Null, Null, []);
      } else if t[0] == 116 {
        KeywordExactly(t, TRUE_TEXT, Bool(true), Null, []);
      } else if t[0] == 102 {
        KeywordExactly(t, FALSE_TEXT, Bool(false), Null, []);
      } else if Digit(t[0]) || t[0] == 45 {
        NumberExactly(t, Null, []);
      } else if t[0] == QUOTE {
        StringExactly(t[1..], Null, []);
      }
    }
  }

  lemma OpenDigits(s: Text)
    requires s != []
    ensures OpenNumeral(s) ==> Digit(s[0])
  {
    assert Ascii("0") == [48];
  }
}
