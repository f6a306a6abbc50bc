/**
 * The recursive parser of libjson/src/parser.cpp, and what it makes of a printed value.
 */
module JsonParser {

  import opened Utf
  import opened JsonValue
  import opened JsonLexer

  datatype Parsed = Done(value: Value, rest: Text) | Fails(e: Exception)

  /** The value at the front: a scalar token or a whole container. */
  function ParseValue(s: Text): (r: Parsed)
    ensures r.Done? ==> |r.rest| < |s|
    decreases |s|, 0
  {
    match NextToken(s)
    case Throws(e) => Fails(e)
    case Tok(Scalar(v), rest) => Done(v, rest)
    case Tok(LCB, rest) => ParseMembers(rest, [])
    case Tok(LB, rest) => ParseElems(rest, [])
    case Tok(_, _) => Fails(ParsingError)
  }

  /** parse_array from the top of its loop; input that ends here ends the array. */
  function ParseElems(s: Text, acc: seq<Value>): (r: Parsed)
    ensures r.Done? ==> |r.rest| <= |s|
    decreases |s|, 1
  {
    if NextToken(s).Tok? && NextToken(s).token == End then Done(Arr(acc), [])
    else
      match ParseValue(s)
      case Fails(e) => Fails(e)
      case Done(v, rest) =>
        match NextToken(rest)
        case Throws(e) => Fails(e)
        case Tok(RB, more) => Done(Arr(acc + [v]), more)
        case Tok(Comma, more) => ParseElems(more, acc + [v])
        case Tok(_, _) => Fails(ParsingError)
  }

  /** A key and the colon after it. */
  function ParseKey(s: Text): (r: Parsed)
    ensures r.Done? ==> r.value.Str? && |r.rest| < |s|
  {
    match NextToken(s)
    case Throws(e) => Fails(e)
    case Tok(t, rest) =>
      if !(t.Scalar? && t.v.Str?) then Fails(ParsingError)
      else
        match NextToken(rest)
        case Throws(e) => Fails(e)
        case Tok(c, more) => if c.Colon? then Done(t.v, more) else Fails(ParsingError)
  }

  /** parse_object from the top of its loop. */
  function ParseMembers(s: Text, acc: seq<Member>): (r: Parsed)
    ensures r.Done? ==> |r.rest| <= |s|
    decreases |s|, 1
  {
    if NextToken(s).Tok? && NextToken(s).token == End then Done(Obj(acc), [])
    else
      match ParseKey(s)
      case Fails(e) => Fails(e)
      case Done(key, afterKey) =>
        match ParseValue(afterKey)
        case Fails(e) => Fails(e)
        case Done(v, rest) =>
          var k := Unescape(key.s);
          if k.Err? then Fails(InvalidArgument)
          else
            var acc' := Insert(acc, Member(k.value, v));
            match NextToken(rest)
            case Throws(e) => Fails(e)
            case Tok(RCB, more) => Done(Obj(acc'), more)
            case Tok(Comma, more) => ParseMembers(more, acc')
            case Tok(_, _) => Fails(ParsingError)
  }

  /** from_string: only an object or an array may stand at the top. */
  function Parse(s: Text): (r: Parsed) {
    match NextToken(s)
    case Throws(e) => Fails(e)
    case Tok(LCB, rest) => ParseMembers(rest, [])
    case Tok(LB, rest) => ParseElems(rest, [])
    case Tok(_, _) => Fails(ParsingError)
  }

  // ---- what parsing makes of a printed value ------------------------------------------

  datatype Outcome = Fine(v: Value) | Broken(e: Exception)

  function Image(v: Value): (r: Outcome) {
    match v
    case Null | Bool(_) => Fine(v)
    case Int(n) => if n == 0 then Broken(ParsingError) else Fine(v)
    case Str(s) => var u := Unescape(s); if u.Ok? then Fine(Str(u.value)) else Broken(InvalidArgument)
    case Arr(xs) => if xs == [] then Broken(ParsingError) else ImageElems(xs, [])
    case Obj(ms) => if ms == [] then Broken(ParsingError) else ImageMembers(ms, [])
  }

  function ImageElems(xs: seq<Value>, acc: seq<Value>): (r: Outcome)
    decreases xs
  {
    if xs == [] then Fine(Arr(acc))
    else
      match Image(xs[0])
      case Broken(e) => Broken(e)
      case Fine(w) => ImageElems(xs[1..], acc + [w])
  }

  function ImageMembers(ms: seq<Member>, acc: seq<Member>): (r: Outcome)
    decreases ms
  {
    if ms == [] then Fine(Obj(acc))
    else
      var k := Unescape(ms[0].key);
      if k.Err? then Broken(InvalidArgument)
      else
        match Image(ms[0].val)
        case Broken(e) => Broken(e)
        case Fine(w) =>
          var k2 := Unescape(k.value);
          if k2.Err? then Broken(InvalidArgument)
          else ImageMembers(ms[1..], Insert(acc, Member(k2.value, w)))
  }

  function Lift(o: Outcome, rest: Text): (r: Parsed) {
    if o.Fine? then Done(o.v, rest) else Fails(o.e)
  }

  predicate NotEnd(r: Lexed) { r.Tok? ==> r.token != End }

  // ---- the text of a container, seen from its first part -------------------------------

  function ElemsText(xs: seq<Value>, pretty: bool, indent: nat, rest: Text): (t: Text) {
    ShownElems(xs, true, pretty, indent) + Break(pretty, indent) + [93] + rest
  }

  function AfterElem(xs: seq<Value>, pretty: bool, indent: nat, rest: Text): (t: Text) {
    if xs == [] then Break(pretty, indent) + ([93] + rest) else [44] + ElemsText(xs, pretty, indent, rest)
  }

  lemma ElemsTextSplit(xs: seq<Value>, pretty: bool, indent: nat, rest: Text)
    requires xs != []
    ensures ElemsText(xs, pretty, indent, rest)
      == Break(pretty, indent + 2) + (Shown(xs[0], pretty, indent + 2) + AfterElem(xs[1..], pretty, indent, rest))
  {
    hide Break, Shown, ShownElems;
    var b, h := Break(pretty, indent + 2), Shown(xs[0], pretty, indent + 2);
    ElemsUnfold(xs, pretty, indent);
    if xs[1..] == [] {
      LastGroup(b, h, Break(pretty, indent), [93], rest);
    } else {
      ElemsComma(xs[1..], pretty, indent);
      NextGroup(b, h, ShownElems(xs[1..], true, pretty, indent), Break(pretty, indent), [93], rest);
    }
  }

  lemma ElemsUnfold(xs: seq<Value>, pretty: bool, indent: nat)
    requires xs != []
    ensures ShownElems(xs, true, pretty, indent)
      == [] + Break(pretty, indent + 2) + Shown(xs[0], pretty, indent + 2) + ShownElems(xs[1..], false, pretty, indent)
    ensures ShownElems([], false, pretty, indent) == []
  {
  }

  lemma ElemsComma(xs: seq<Value>, pretty: bool, indent: nat)
    requires xs != []
    ensures ShownElems(xs, false, pretty, indent) == [44] + ShownElems(xs, true, pretty, indent)
  {
    CommaGroup(Break(pretty, indent + 2), Shown(xs[0], pretty, indent + 2),
      ShownElems(xs[1..], false, pretty, indent));
  }

  lemma CommaGroup(b: Text, h: Text, more: Text)
    ensures [44] + b + h + more == [44] + ([] + b + h + more)
  {
  }

  lemma LastGroup(b: Text, h: Text, close: Text, z: Text, rest: Text)
    ensures [] + b + h + [] + close + z + rest == b + (h + (close + (z + rest)))
  {
  }

  lemma NextGroup(b: Text, h: Text, more: Text, close: Text, z: Text, rest: Text)
    ensures [] + b + h + ([44] + more) + close + z + rest == b + (h + ([44] + (more + close + z + rest)))
  {
  }

  lemma AfterElemDelimited(xs: seq<Value>, pretty: bool, indent: nat, rest: Text)
    ensures Delimited(AfterElem(xs, pretty, indent, rest))
  {
  }

  function MembersText(ms: seq<Member>, pretty: bool, indent: nat, rest: Text): (t: Text) {
    ShownMembers(ms, true, pretty, indent) + Break(pretty, indent) + [125] + rest
  }

  function AfterMember(ms: seq<Member>, pretty: bool, indent: nat, rest: Text): (t: Text) {
    if ms == [] then Break(pretty, indent) + ([125] + rest) else [44] + MembersText(ms, pretty, indent, rest)
  }

  function AfterKey(m: Member, pretty: bool, indent: nat, rest: Text): (t: Text) {
    [32] + ([58] + ([32] + (Shown(m.val, pretty, indent) + rest)))
  }

  lemma MembersTextSplit(ms: seq<Member>, pretty: bool, indent: nat, rest: Text)
    requires ms != []
    ensures MembersText(ms, pretty, indent, rest)
      == Break(pretty, indent + 2) + (Quoted(ms[0].key)
           + AfterKey(ms[0], pretty, indent + 2, AfterMember(ms[1..], pretty, indent, rest)))
  {
    hide Break, Shown, Quoted, ShownMembers, ShownMember;
    var b, h := Break(pretty, indent + 2), ShownMember(ms[0], pretty, indent + 2);
    MembersUnfold(ms, pretty, indent);
    if ms[1..] == [] {
      LastGroup(b, h, Break(pretty, indent), [125], rest);
    } else {
      MembersComma(ms[1..], pretty, indent);
      NextGroup(b, h, ShownMembers(ms[1..], true, pretty, indent), Break(pretty, indent), [125], rest);
    }
    MemberGroup(ms[0], pretty, indent + 2, AfterMember(ms[1..], pretty, indent, rest));
  }

  lemma MemberGroup(m: Member, pretty: bool, indent: nat, rest: Text)
    ensures ShownMember(m, pretty, indent) + rest == Quoted(m.key) + AfterKey(m, pretty, indent, rest)
  {
    hide Quoted, Shown;
  }

  lemma MembersUnfold(ms: seq<Member>, pretty: bool, indent: nat)
    requires ms != []
    ensures ShownMembers(ms, true, pretty, indent)
      == [] + Break(pretty, indent + 2) + ShownMember(ms[0], pretty, indent + 2)
        + ShownMembers(ms[1..], false, pretty, indent)
    ensures ShownMembers([], false, pretty, indent) == []
  {
  }

  lemma MembersComma(ms: seq<Member>, pretty: bool, indent: nat)
    requires ms != []
    ensures ShownMembers(ms, false, pretty, indent) == [44] + ShownMembers(ms, true, pretty, indent)
  {
    CommaGroup(Break(pretty, indent + 2), ShownMember(ms[0], pretty, indent + 2),
      ShownMembers(ms[1..], false, pretty, indent));
  }

  lemma AfterMemberDelimited(ms: seq<Member>, pretty: bool, indent: nat, rest: Text)
    ensures Delimited(AfterMember(ms, pretty, indent, rest))
  {
  }

  // ---- parsing the printed form -------------------------------------------------------

  /** Parsing looks at its input through the next token alone. */
  lemma SameToken(s: Text, t: Text)
    requires NextToken(s) == NextToken(t)
    ensures ParseValue(s) == ParseValue(t) && ParseKey(s) == ParseKey(t)
  {
    hide NextToken, ParseMembers, ParseElems;
  }

  /** One turn of the array loop over a printed element. */
  lemma ElemTurn(s: Text, acc: seq<Value>, o: Outcome, after: Text)
    requires NotEnd(NextToken(s)) && ParseValue(s) == Lift(o, after)
    ensures o.Broken? ==> ParseElems(s, acc) == Fails(o.e)
    ensures o.Fine? && NextToken(after).Tok? && NextToken(after).token == RB ==>
      ParseElems(s, acc) == Done(Arr(acc + [o.v]), NextToken(after).rest)
    ensures o.Fine? && NextToken(after).Tok? && NextToken(after).token == Comma ==>
      ParseElems(s, acc) == ParseElems(NextToken(after).rest, acc + [o.v])
  {
    hide NextToken, ParseValue;
  }

  lemma {:induction false} ElemsParsed(xs: seq<Value>, acc: seq<Value>, pretty: bool, indent: nat, rest: Text)
    requires xs != [] && AllUtf8(xs)
    ensures NotEnd(NextToken(ElemsText(xs, pretty, indent, rest)))
    ensures ParseElems(ElemsText(xs, pretty, indent, rest), acc) == Lift(ImageElems(xs, acc), rest)
    decreases xs
  {
    hide NextToken, ParseElems, ParseValue, Shown, Break, ElemsText, Image;
    var after := AfterElem(xs[1..], pretty, indent, rest);
    var here := Shown(xs[0], pretty, indent + 2) + after;
    var s := ElemsText(xs, pretty, indent, rest);
    AfterElemDelimited(xs[1..], pretty, indent, rest);
    ValueParsed(xs[0], pretty, indent + 2, after);
    ElemsTextSplit(xs, pretty, indent, rest);
    SkipBreak(pretty, indent + 2, here);
    SameToken(s, here);
    ElemTurn(s, acc, Image(xs[0]), after);
    if xs[1..] == [] {
      SkipBreak(pretty, indent, [93] + rest);
      NextPunctuation(93, rest);
    } else {
      NextPunctuation(44, ElemsText(xs[1..], pretty, indent, rest));
      if Image(xs[0]).Fine? {
        ElemsParsed(xs[1..], acc + [Image(xs[0]).v], pretty, indent, rest);
      }
    }
  }

  /** What a printed key reads as: unescaped once more than it was escaped. */
  lemma KeyParsed(m: Member, pretty: bool, indent: nat, rest: Text)
    requires ValidUtf8(m.key)
    ensures var s := Quoted(m.key) + AfterKey(m, pretty, indent, rest);
      var u := Unescape(m.key);
      && NotEnd(NextToken(s))
      && ParseKey(s) ==
           if u.Ok? then Done(Str(u.value), [32] + (Shown(m.val, pretty, indent) + rest))
           else Fails(InvalidArgument)
  {
    hide NextToken, Quoted, Unescape, Shown;
    var value := [32] + (Shown(m.val, pretty, indent) + rest);
    NextString(m.key, AfterKey(m, pretty, indent, rest));
    SkipSpaces([32], [58] + value);
    NextPunctuation(58, value);
  }

  /** One turn of the object loop over a printed member. */
  lemma MemberTurn(s: Text, acc: seq<Member>, key: Text, afterKey: Text, o: Outcome, after: Text)
    requires NotEnd(NextToken(s)) && ParseKey(s) == Done(Str(key), afterKey)
    requires ParseValue(afterKey) == Lift(o, after)
    ensures o.Broken? ==> ParseMembers(s, acc) == Fails(o.e)
    ensures o.Fine? && Unescape(key).Err? ==> ParseMembers(s, acc) == Fails(InvalidArgument)
    ensures o.Fine? && Unescape(key).Ok? && NextToken(after).Tok? && NextToken(after).token == RCB ==>
      ParseMembers(s, acc)
        == Done(Obj(Insert(acc, Member(Unescape(key).value, o.v))), NextToken(after).rest)
    ensures o.Fine? && Unescape(key).Ok? && NextToken(after).Tok? && NextToken(after).token == Comma ==>
      ParseMembers(s, acc)
        == ParseMembers(NextToken(after).rest, Insert(acc, Member(Unescape(key).value, o.v)))
  {
    hide NextToken, ParseValue, ParseKey, Unescape, Insert;
  }

  lemma KeyFails(s: Text, acc: seq<Member>, e: Exception)
    requires NotEnd(NextToken(s)) && ParseKey(s) == Fails(e)
    ensures ParseMembers(s, acc) == Fails(e)
  {
    hide NextToken, ParseKey;
  }

  lemma {:induction false} MembersParsed(ms: seq<Member>, acc: seq<Member>, pretty: bool, indent: nat, rest: Text)
    requires ms != [] && MembersUtf8(ms)
    ensures NotEnd(NextToken(MembersText(ms, pretty, indent, rest)))
    ensures ParseMembers(MembersText(ms, pretty, indent, rest), acc) == Lift(ImageMembers(ms, acc), rest)
    decreases ms
  {
    hide NextToken, ParseMembers, ParseValue, ParseKey, Shown, Break, Quoted, AfterKey, MembersText,
      Image, Unescape, Insert;
    var m, after := ms[0], AfterMember(ms[1..], pretty, indent, rest);
    var here := Quoted(m.key) + AfterKey(m, pretty, indent + 2, after);
    var value := Shown(m.val, pretty, indent + 2) + after;
    var s := MembersText(ms, pretty, indent, rest);
    AfterMemberDelimited(ms[1..], pretty, indent, rest);
    MembersTextSplit(ms, pretty, indent, rest);
    SkipBreak(pretty, indent + 2, here);
    SameToken(s, here);
    KeyParsed(m, pretty, indent + 2, after);
    var u := Unescape(m.key);
    if u.Err? {
      KeyFails(s, acc, InvalidArgument);
    } else {
      SkipSpaces([32], value);
      SameToken([32] + value, value);
      ValueParsed(m.val, pretty, indent + 2, after);
      MemberTurn(s, acc, u.value, [32] + value, Image(m.val), after);
      if ms[1..] == [] {
        SkipBreak(pretty, indent, [125] + rest);
        NextPunctuation(125, rest);
      } else {
        NextPunctuation(44, MembersText(ms[1..], pretty, indent, rest));
        if Image(m.val).Fine? && Unescape(u.value).Ok? {
          MembersParsed(ms[1..], Insert(acc, Member(Unescape(u.value).value, Image(m.val).v)), pretty, indent, rest);
        }
      }
    }
  }

  /** An empty container prints to brackets that the parser refuses. */
  lemma EmptyFails(pretty: bool, indent: nat, rest: Text)
    ensures ParseElems(Break(pretty, indent) + [93] + rest, []) == Fails(ParsingError)
    ensures ParseMembers(Break(pretty, indent) + [125] + rest, []) == Fails(ParsingError)
  {
    assert Break(pretty, indent) + [93] + rest == Break(pretty, indent) + ([93] + rest);
    assert Break(pretty, indent) + [125] + rest == Break(pretty, indent) + ([125] + rest);
    SkipBreak(pretty, indent, [93] + rest);
    SkipBreak(pretty, indent, [125] + rest);
    NextPunctuation(93, rest);
    NextPunctuation(125, rest);
    hide NextToken, Break;
  }

  lemma ArrayText(xs: seq<Value>, pretty: bool, indent: nat, rest: Text)
    ensures Shown(Arr(xs), pretty, indent) + rest == [91] + ElemsText(xs, pretty, indent, rest)
    ensures xs == [] ==> ElemsText(xs, pretty, indent, rest) == Break(pretty, indent) + [93] + rest
  {
    hide Break;
  }

  lemma ObjectText(ms: seq<Member>, pretty: bool, indent: nat, rest: Text)
    ensures Shown(Obj(ms), pretty, indent) + rest == [123] + MembersText(ms, pretty, indent, rest)
    ensures ms == [] ==> MembersText(ms, pretty, indent, rest) == Break(pretty, indent) + [125] + rest
  {
    hide Break;
  }

  lemma ArrayParsed(xs: seq<Value>, pretty: bool, indent: nat, rest: Text)
    requires xs != [] ==>
      ParseElems(ElemsText(xs, pretty, indent, rest), []) == Lift(ImageElems(xs, []), rest)
    ensures NextToken(Shown(Arr(xs), pretty, indent) + rest) == Tok(LB, ElemsText(xs, pretty, indent, rest))
    ensures ParseElems(ElemsText(xs, pretty, indent, rest), []) == Lift(Image(Arr(xs)), rest)
  {
    ArrayText(xs, pretty, indent, rest);
    NextPunctuation(91, ElemsText(xs, pretty, indent, rest));
    EmptyFails(pretty, indent, rest);
    hide NextToken, ParseElems, ElemsText, Break;
  }

  lemma ObjectParsed(ms: seq<Member>, pretty: bool, indent: nat, rest: Text)
    requires ms != [] ==>
      ParseMembers(MembersText(ms, pretty, indent, rest), []) == Lift(ImageMembers(ms, []), rest)
    ensures NextToken(Shown(Obj(ms), pretty, indent) + rest) == Tok(LCB, MembersText(ms, pretty, indent, rest))
    ensures ParseMembers(MembersText(ms, pretty, indent, rest), []) == Lift(Image(Obj(ms)), rest)
  {
    ObjectText(ms, pretty, indent, rest);
    NextPunctuation(123, MembersText(ms, pretty, indent, rest));
    EmptyFails(pretty, indent, rest);
    hide NextToken, ParseMembers, MembersText, Break;
  }

  lemma ScalarParsed(v: Value, pretty: bool, indent: nat, rest: Text)
    requires !v.Arr? && !v.Obj? && Utf8Inside(v) && Delimited(rest)
    ensures NextToken(Shown(v, pretty, indent) + rest)
      == if Image(v).Fine? then Tok(Scalar(Image(v).v), rest) else Throws(Image(v).e)
  {
    hide NextToken, Unescape;
    match v
    case Int(n) => NextInteger(n, rest);
    case Str(s) => NextString(s, rest);
    case _ => NextKeyword(v, rest);
  }

  /** Parsing a printed value gives its image and stops right after it. */
  lemma {:induction false} ValueParsed(v: Value, pretty: bool, indent: nat, rest: Text)
    requires Utf8Inside(v) && Delimited(rest)
    ensures NotEnd(NextToken(Shown(v, pretty, indent) + rest))
    ensures ParseValue(Shown(v, pretty, indent) + rest) == Lift(Image(v), rest)
    decreases v
  {
    hide NextToken, ParseElems, ParseMembers, Shown, Image, ElemsText, MembersText;
    match v
    case Arr(xs) =>
      if xs != [] { ElemsParsed(xs, [], pretty, indent, rest); }
      ArrayParsed(xs, pretty, indent, rest);
    case Obj(ms) =>
      if ms != [] { MembersParsed(ms, [], pretty, indent, rest); }
      ObjectParsed(ms, pretty, indent, rest);
    case _ => ScalarParsed(v, pretty, indent, rest);
  }

  /**
   * Reading back a printed object or array, at any indent, whatever follows it in the
   * input: the result is the image of the value.
   */
  lemma PrintedParses(v: Value, pretty: bool, indent: nat, rest: Text)
    requires Utf8Inside(v) && (v.Arr? || v.Obj?)
    ensures Parse(Shown(v, pretty, indent) + rest) == Lift(Image(v), rest)
  {
    hide NextToken, ParseElems, ParseMembers, Shown, Image, ElemsText, MembersText;
    match v
    case Arr(xs) =>
      if xs != [] { ElemsParsed(xs, [], pretty, indent, rest); }
      ArrayParsed(xs, pretty, indent, rest);
    case Obj(ms) =>
      if ms != [] { MembersParsed(ms, [], pretty, indent, rest); }
      ObjectParsed(ms, pretty, indent, rest);
  }
}
