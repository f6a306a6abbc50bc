/**
 * The imperative side of libjson: the lexer object, the parser that pulls tokens from it
 * and grows its containers, and the loops that print a container.  Each is tied to the
 * functions of JsonLexer, JsonParser and JsonValue.
 */
module JsonCode {

  import opened Utf
  import opened JsonValue
  import opened JsonLexer
  import opened JsonParser

  class Lexer {
    var input: Text

    constructor (s: Text)
      ensures input == s
    {
      input := s;
    }

    method GetNumber() returns (r: Lexed)
      requires input != []
      modifies this
      ensures r == Number(old(input))
      ensures r.Tok? ==> input == r.rest
    {
      hide DigitsValue, IntegerToken, DigitRun;
      var negative := input[0] == 45;
      var s := if negative then input[1..] else input;
      input := s;
      if s == [] { return AT_END; }
      if s[0] == 48 {
        if |s| == 1 { input := []; return AT_END; }
        return Throws(if s[1] != 46 then ParsingError else RealNumber);
      }
      if !Digit(s[0]) { return Throws(ParsingError); }
      var i: nat := 0;
      while i < |s| && Digit(s[i])
        invariant i <= |s| && forall j :: 0 <= j < i ==> Digit(s[j])
      {
        i := i + 1;
      }
      RunEnds(s, i);
      input := s[i..];
      if i == |s| { return AT_END; }
      if s[i] == 46 || s[i] == 101 || s[i] == 69 { return Throws(RealNumber); }
      r := IntegerToken(negative, s[..i], input);
      IntegerRest(negative, s[..i], input);
    }

    /** The body of a string, after its opening quote. */
    method GetString() returns (r: Lexed)
      modifies this
      ensures r == StringToken(old(input))
      ensures r.Tok? ==> input == r.rest
    {
      ghost var s := input;
      var str: Text := [];
      BeforeNothing(StringBody(s));
      while true
        invariant StringBody(s) == Before(str, StringBody(input))
        decreases |input|
      {
        if input == [] { return AT_END; }
        var add: Text, rest := [input[0]], input[1..];
        if input[0] == QUOTE {
          input := rest;
          BeforeClosing(str, rest);
          var v := StringUnescape(str);
          return if v.Ok? then Tok(Scalar(Str(v.value)), rest) else Throws(InvalidArgument);
        } else if input[0] == BACKSLASH {
          if |input| == 1 { input := []; return AT_END; }
          if input[1] == LETTER_U {
            var d := Utf16Decode(input);
            if d.Failed? {
              input := [];
              return if d.fault.EndOfInput? then AT_END else Throws(InvalidArgument);
            }
            Utf16DecodeShrinks(input);
            add, rest := d.value, d.rest;
          } else if ShortUnescape(input[1]) != 0 {
            add, rest := [ShortUnescape(input[1])], input[2..];
          } else {
            return Throws(ParsingError);
          }
        }
        BeforeTwice(str, add, StringBody(rest));
        str, input := str + add, rest;
      }
    }

    method GetKeyword(word: Text, v: Value) returns (r: Lexed)
      modifies this
      ensures r == Keyword(old(input), word, v)
      ensures r.Tok? ==> input == r.rest
    {
      r := Keyword(input, word, v);
      input := if r.Tok? then r.rest else input;
    }

    /** lexer::get. */
    method Get() returns (r: Lexed)
      modifies this
      ensures r == NextToken(old(input))
      ensures r.Tok? ==> input == r.rest
    {
      while input != [] && Space(input[0])
        invariant NextToken(input) == NextToken(old(input))
        decreases |input|
      {
        input := input[1..];
      }
      if input == [] { return AT_END; }
      var c := input[0];
      if Punctuation(c) != End {
        input := input[1..];
        return Tok(Punctuation(c), input);
      } else if c == 110 {
        r := GetKeyword(NULL_TEXT, Null);
      } else if c == 116 {
        r := GetKeyword(TRUE_TEXT, Bool(true));
      } else if c == 102 {
        r := GetKeyword(FALSE_TEXT, Bool(false));
      } else if c == 45 || Digit(c) {
        r := GetNumber();
      } else if c == QUOTE {
        input := input[1..];
        r := GetString();
      } else {
        r := Throws(ParsingError);
      }
    }
  }

  lemma RunEnds(s: Text, i: nat)
    requires i <= |s| && (forall j :: 0 <= j < i ==> Digit(s[j])) && (i < |s| ==> !Digit(s[i]))
    ensures DigitRun(s) == i
  {
    var k := DigitRun(s);
  }

  lemma IntegerRest(negative: bool, digits: Text, rest: Text)
    ensures var r := IntegerToken(negative, digits, rest); r.Tok? ==> r.rest == rest
  {
  }

  lemma BeforeNothing(r: StringRead)
    ensures Before([], r) == r
  {
    if r.Body? { assert [] + r.str == r.str; }
  }

  lemma BeforeTwice(a: Text, b: Text, r: StringRead)
    ensures Before(a, Before(b, r)) == Before(a + b, r)
  {
    if r.Body? { assert a + (b + r.str) == a + b + r.str; }
  }

  lemma BeforeClosing(a: Text, rest: Text)
    ensures Before(a, Body([], rest)) == Body(a, rest)
  {
    assert a + [] == a;
  }

  // ---- the parser ---------------------------------------------------------------------

  ghost predicate Yields(lex: Lexer, r: Outcome, p: Parsed)
    reads lex
  {
    match p
    case Done(v, rest) => r == Fine(v) && lex.input == rest
    case Fails(e) => r == Broken(e)
  }

  function OfToken(t: Token, rest: Text): (r: Parsed)
  {
    match t
    case Scalar(v) => Done(v, rest)
    case LCB => ParseMembers(rest, [])
    case LB => ParseElems(rest, [])
    case _ => Fails(ParsingError)
  }

  lemma OfTokenShrinks(t: Token, rest: Text)
    ensures OfToken(t, rest).Done? ==> |OfToken(t, rest).rest| <= |rest|
  {
  }

  lemma TokenShrinks(s: Text)
    ensures NextToken(s).Tok? ==>
      if NextToken(s).token == End then NextToken(s).rest == [] else |NextToken(s).rest| < |s|
  {
  }

  lemma ElemsTurn(s: Text, acc: seq<Value>)
    requires NextToken(s).Tok? && NextToken(s).token != End
    ensures var p := OfToken(NextToken(s).token, NextToken(s).rest);
      ParseElems(s, acc) ==
        if p.Fails? then Fails(p.e) else ElemsAfter(NextToken(p.rest), acc + [p.value])
  {
    hide NextToken;
  }

  function ElemsAfter(n: Lexed, acc: seq<Value>): (r: Parsed) {
    if n.Throws? then Fails(n.e)
    else if n.token == RB then Done(Arr(acc), n.rest)
    else if n.token == Comma then ParseElems(n.rest, acc)
    else Fails(ParsingError)
  }

  lemma ElemsStop(s: Text, acc: seq<Value>)
    requires NextToken(s).Tok? ==> NextToken(s).token == End
    ensures ParseElems(s, acc) == if NextToken(s).Tok? then Done(Arr(acc), []) else Fails(NextToken(s).e)
    ensures NextToken(s).Tok? ==> NextToken(s).rest == []
  {
  }

  lemma MembersTurn(s: Text, acc: seq<Member>)
    requires NextToken(s).Tok? && NextToken(s).token != End
    ensures ParseMembers(s, acc) ==
      if ParseKey(s).Fails? then Fails(ParseKey(s).e)
      else MembersAfterKey(ParseKey(s).value.s, NextToken(ParseKey(s).rest), acc)
  {
    hide NextToken, ParseKey, Unescape, Insert;
  }

  function MembersAfterKey(key: Text, n: Lexed, acc: seq<Member>): (r: Parsed) {
    if n.Throws? then Fails(n.e)
    else
      var p := OfToken(n.token, n.rest);
      if p.Fails? then Fails(p.e)
      else if Unescape(key).Err? then Fails(InvalidArgument)
      else MembersAfter(NextToken(p.rest), Insert(acc, Member(Unescape(key).value, p.value)))
  }

  function MembersAfter(n: Lexed, acc: seq<Member>): (r: Parsed) {
    if n.Throws? then Fails(n.e)
    else if n.token == RCB then Done(Obj(acc), n.rest)
    else if n.token == Comma then ParseMembers(n.rest, acc)
    else Fails(ParsingError)
  }

  lemma MembersStop(s: Text, acc: seq<Member>)
    requires NextToken(s).Tok? ==> NextToken(s).token == End
    ensures ParseMembers(s, acc) == if NextToken(s).Tok? then Done(Obj(acc), []) else Fails(NextToken(s).e)
    ensures NextToken(s).Tok? ==> NextToken(s).rest == []
  {
  }

  method ParseArray(lex: Lexer) returns (r: Outcome)
    modifies lex
    ensures Yields(lex, r, ParseElems(old(lex.input), []))
    decreases |lex.input|, 0
  {
    hide NextToken, OfToken, ParseElems;
    var arr: seq<Value> := [];
    ghost var s := lex.input;
    var t := lex.Get();
    while t.Tok? && t.token != End
      invariant t == NextToken(s) && (t.Tok? ==> lex.input == t.rest) && |s| <= |old(lex.input)|
      invariant ParseElems(s, arr) == ParseElems(old(lex.input), [])
      decreases |s|
    {
      ElemsTurn(s, arr);
      TokenShrinks(s);
      OfTokenShrinks(t.token, lex.input);
      var v := ParseToken(t.token, lex);
      if v.Broken? { return v; }
      arr := arr + [v.v];
      TokenShrinks(lex.input);
      t := lex.Get();
      if t.Throws? { return Broken(t.e); }
      if t.token == RB { return Fine(Arr(arr)); }
      if t.token != Comma { return Broken(ParsingError); }
      s := lex.input;
      t := lex.Get();
    }
    ElemsStop(s, arr);
    if t.Throws? { return Broken(t.e); }
    return Fine(Arr(arr));
  }

  method ParseObject(lex: Lexer) returns (r: Outcome)
    modifies lex
    ensures Yields(lex, r, ParseMembers(old(lex.input), []))
    decreases |lex.input|, 0
  {
    hide NextToken, OfToken, ParseMembers, Unescape, Insert;
    var obj: seq<Member> := [];
    ghost var s := lex.input;
    var t := lex.Get();
    while t.Tok? && t.token != End
      invariant t == NextToken(s) && (t.Tok? ==> lex.input == t.rest) && |s| <= |old(lex.input)|
      invariant ParseMembers(s, obj) == ParseMembers(old(lex.input), [])
      decreases |s|
    {
      MembersTurn(s, obj);
      TokenShrinks(s);
      if !(t.token.Scalar? && t.token.v.Str?) { return Broken(ParsingError); }
      var key := t.token.v.s;
      TokenShrinks(lex.input);
      t := lex.Get();
      if t.Throws? { return Broken(t.e); }
      if t.token != Colon { return Broken(ParsingError); }
      TokenShrinks(lex.input);
      t := lex.Get();
      if t.Throws? { return Broken(t.e); }
      OfTokenShrinks(t.token, lex.input);
      var v := ParseToken(t.token, lex);
      if v.Broken? { return v; }
      var k := StringUnescape(key);
      if k.Err? { return Broken(InvalidArgument); }
      obj := Insert(obj, Member(k.value, v.v));
      TokenShrinks(lex.input);
      t := lex.Get();
      if t.Throws? { return Broken(t.e); }
      if t.token == RCB { return Fine(Obj(obj)); }
      if t.token != Comma { return Broken(ParsingError); }
      s := lex.input;
      t := lex.Get();
    }
    MembersStop(s, obj);
    if t.Throws? { return Broken(t.e); }
    return Fine(Obj(obj));
  }

  /** The switch of both loops over the token a value starts with. */
  method ParseToken(t: Token, lex: Lexer) returns (r: Outcome)
    modifies lex
    ensures Yields(lex, r, OfToken(t, old(lex.input)))
    decreases |lex.input|, 1
  {
    match t
    case Scalar(v) => r := Fine(v);
    case LCB => r := ParseObject(lex);
    case LB => r := ParseArray(lex);
    case _ => r := Broken(ParsingError);
  }

  /** from_string: the parser finds in any text what the grammar functions find. */
  method FromString(s: Text) returns (r: Outcome)
    ensures r == match Parse(s) { case Done(v, _) => Fine(v) case Fails(e) => Broken(e) }
  {
    var lex := new Lexer(s);
    var t := lex.Get();
    if t.Throws? { return Broken(t.e); }
    if t.token == LCB {
      r := ParseObject(lex);
    } else if t.token == LB {
      r := ParseArray(lex);
    } else {
      r := Broken(ParsingError);
    }
  }

  // ---- the printer --------------------------------------------------------------------

  function Printed(ok: bool, t: Text): (r: Result<Text>) { if ok then Ok(t) else Err(BadArgument) }

  lemma {:induction false} EscapeFault(s: Text)
    ensures Escape(s).Err? ==> Escape(s) == Err(BadArgument)
    decreases |s|
  {
    if s != [] {
      if ShortEscape(s[0]) != 0 || s[0] < 0x80 {
        EscapeFault(s[1..]);
      } else if Utf16Encode(s).Got? {
        CodePointShrinks(s);
        EscapeFault(Utf16Encode(s).rest);
      }
    }
  }

  lemma QuotedOk(s: Text)
    ensures Escape(s).Ok? ==> Quoted(s) == [QUOTE] + Escape(s).value + [QUOTE]
  {
  }

  lemma ElemsShown(xs: seq<Value>, i: nat, pretty: bool, indent: nat, out: Text)
    requires i < |xs| && out + ShownElems(xs[i..], i == 0, pretty, indent) == ShownElems(xs, true, pretty, indent)
    requires Showable(xs[i])
    ensures var out' := out + (if i == 0 then [] else [44]) + Break(pretty, indent + 2)
        + Shown(xs[i], pretty, indent + 2);
      out' + ShownElems(xs[i + 1..], false, pretty, indent) == ShownElems(xs, true, pretty, indent)
    ensures AllShowable(xs[i..]) == AllShowable(xs[i + 1..])
  {
    hide Break, Shown, Showable;
    assert xs[i..][1..] == xs[i + 1..] && xs[i..][0] == xs[i];
  }

  /** array::str. */
  method ArrayStr(xs: seq<Value>, pretty: bool, indent: nat) returns (r: Result<Text>)
    ensures r == Printed(AllShowable(xs), Shown(Arr(xs), pretty, indent))
    decreases xs, 0
  {
    hide ShownElems, Break, Showable, AllShowable;
    var out: Text := [];
    assert xs[0..] == xs && [] + ShownElems(xs, true, pretty, indent) == ShownElems(xs, true, pretty, indent);
    for i := 0 to |xs|
      invariant out + ShownElems(xs[i..], i == 0, pretty, indent) == ShownElems(xs, true, pretty, indent)
      invariant AllShowable(xs[i..]) == AllShowable(xs)
    {
      var v := ValueStr(xs[i], pretty, indent + 2);
      if v.Err? {
        NotShowable(xs, i);
        return v;
      }
      ElemsShown(xs, i, pretty, indent, out);
      out := out + (if i == 0 then [] else [44]) + Break(pretty, indent + 2) + v.value;
    }
    NothingLeft(xs, pretty, indent, out);
    return Ok([91] + out + Break(pretty, indent) + [93]);
  }

  lemma NotShowable(xs: seq<Value>, i: nat)
    requires i < |xs| && !Showable(xs[i])
    ensures !AllShowable(xs[i..])
  {
    hide Showable;
  }

  lemma NothingLeft(xs: seq<Value>, pretty: bool, indent: nat, out: Text)
    ensures AllShowable(xs[|xs|..])
    ensures out + ShownElems(xs[|xs|..], |xs| == 0, pretty, indent) == out
  {
    assert xs[|xs|..] == [];
  }

  lemma MembersShown(ms: seq<Member>, i: nat, pretty: bool, indent: nat, out: Text)
    requires i < |ms| && out + ShownMembers(ms[i..], i == 0, pretty, indent) == ShownMembers(ms, true, pretty, indent)
    requires Escape(ms[i].key).Ok? && Showable(ms[i].val)
    ensures var out' := out + (if i == 0 then [] else [44]) + Break(pretty, indent + 2)
        + ShownMember(ms[i], pretty, indent + 2);
      out' + ShownMembers(ms[i + 1..], false, pretty, indent) == ShownMembers(ms, true, pretty, indent)
    ensures MembersShowable(ms[i..]) == MembersShowable(ms[i + 1..])
  {
    hide Break, ShownMember, Showable, Escape;
    assert ms[i..][1..] == ms[i + 1..] && ms[i..][0] == ms[i];
  }

  lemma MemberNotShowable(ms: seq<Member>, i: nat)
    requires i < |ms| && !(Escape(ms[i].key).Ok? && Showable(ms[i].val))
    ensures !MembersShowable(ms[i..])
  {
    hide Showable, Escape;
  }

  lemma NoMembersLeft(ms: seq<Member>, pretty: bool, indent: nat, out: Text)
    ensures MembersShowable(ms[|ms|..])
    ensures out + ShownMembers(ms[|ms|..], |ms| == 0, pretty, indent) == out
  {
    assert ms[|ms|..] == [];
  }

  /** object::str of one member. */
  method MemberStr(m: Member, pretty: bool, indent: nat) returns (r: Result<Text>)
    ensures r == Printed(Escape(m.key).Ok? && Showable(m.val), ShownMember(m, pretty, indent))
    decreases m, 1
  {
    hide Escape, Showable, Quoted, Shown;
    var k := StringEscape(m.key);
    EscapeFault(m.key);
    if k.Err? { return k; }
    QuotedOk(m.key);
    var v := ValueStr(m.val, pretty, indent);
    if v.Err? { return v; }
    return Ok([QUOTE] + k.value + [QUOTE] + COLON_TEXT + v.value);
  }

  /** object::str of the whole object. */
  method ObjectStr(ms: seq<Member>, pretty: bool, indent: nat) returns (r: Result<Text>)
    ensures r == Printed(MembersShowable(ms), Shown(Obj(ms), pretty, indent))
    decreases ms, 0
  {
    hide ShownMembers, ShownMember, Break, Showable, MembersShowable, Escape;
    var out: Text := [];
    assert ms[0..] == ms && [] + ShownMembers(ms, true, pretty, indent) == ShownMembers(ms, true, pretty, indent);
    for i := 0 to |ms|
      invariant out + ShownMembers(ms[i..], i == 0, pretty, indent) == ShownMembers(ms, true, pretty, indent)
      invariant MembersShowable(ms[i..]) == MembersShowable(ms)
    {
      var v := MemberStr(ms[i], pretty, indent + 2);
      if v.Err? {
        MemberNotShowable(ms, i);
        return v;
      }
      MembersShown(ms, i, pretty, indent, out);
      out := out + (if i == 0 then [] else [44]) + Break(pretty, indent + 2) + v.value;
    }
    NoMembersLeft(ms, pretty, indent, out);
    return Ok([123] + out + Break(pretty, indent) + [125]);
  }

  /** value::str. */
  method ValueStr(v: Value, pretty: bool, indent: nat) returns (r: Result<Text>)
    ensures r == Printed(Showable(v), Shown(v, pretty, indent))
    decreases v, 1
  {
    match v
    case Null => r := Ok(NULL_TEXT);
    case Bool(b) => r := Ok(if b then TRUE_TEXT else FALSE_TEXT);
    case Int(n) => r := Ok(Decimal(n));
    case Str(s) =>
      r := StringEscape(s);
      EscapeFault(s);
      QuotedOk(s);
      if r.Ok? { r := Ok([QUOTE] + r.value + [QUOTE]); }
    case Arr(xs) => r := ArrayStr(xs, pretty, indent);
    case Obj(ms) => r := ObjectStr(ms, pretty, indent);
  }
}
