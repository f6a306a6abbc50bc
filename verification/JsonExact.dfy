/**
 * The parser of libjson against the grammar: it takes a text as a value, and stops at rest, exactly
 * when the lax grammar reads the text so, or the input ends inside its outermost container
 * (libjson/src/parser.cpp).
 */
module JsonExact {

  import opened Utf
  import opened Escapes
  import opened JsonValue
  import opened JsonGrammar
  import opened JsonLexer
  import opened JsonParser
  import opened JsonRoundTrip
  import opened JsonAccepts

  // ---- members ------------------------------------------------------------------------

  function InsertAll(acc: seq<Member>, ps: seq<Member>): (ms: seq<Member>)
    decreases |ps|
  {
    if ps == [] then acc else InsertAll(Insert(acc, ps[0]), ps[1..])
  }

  lemma {:induction false} InsertAllFinds(acc: seq<Member>, ps: seq<Member>, k: Text)
    requires Sorted(acc)
    ensures Sorted(InsertAll(acc, ps))
    ensures Find(InsertAll(acc, ps), k) == if Find(acc, k) != [] then Find(acc, k) else Find(ps, k)
    decreases |ps|
  {
    hide Insert, Sorted;
    if ps != [] {
      InsertRefines(acc, ps[0], k);
      InsertAllFinds(Insert(acc, ps[0]), ps[1..], k);
    }
  }

  /** Members in order are known by what they answer. */
  lemma {:induction false} SortedUnique(a: seq<Member>, b: seq<Member>)
    requires Sorted(a) && Sorted(b) && forall k :: Find(a, k) == Find(b, k)
    ensures a == b
  {
    assert a != [] ==> Find(b, a[0].key) == Find(a, a[0].key) == [a[0].val];
    assert b != [] ==> Find(a, b[0].key) == Find(b, b[0].key) == [b[0].val];
    if a != [] {
      SortedUnfold(a);
      SortedUnfold(b);
      SameFirst(a, b);
      forall k
        ensures Find(a[1..], k) == Find(b[1..], k)
      {
        assert Find(a, k) == Find(b, k);
        if k == a[0].key {
          AboveNotFound(a[1..], k);
          AboveNotFound(b[1..], k);
        }
      }
      SortedUnique(a[1..], b[1..]);
      assert a == [a[0]] + a[1..] && b == [b[0]] + b[1..];
    }
  }

  lemma SameFirst(a: seq<Member>, b: seq<Member>)
    requires a != [] && b != [] && AllAbove(a[1..], a[0].key) && AllAbove(b[1..], b[0].key)
    requires forall k :: Find(a, k) == Find(b, k)
    ensures a[0] == b[0]
  {
    hide Less;
    assert Find(a, a[0].key) == [a[0].val] && Find(b, b[0].key) == [b[0].val];
    LessTotal(a[0].key, b[0].key);
    if Less(a[0].key, b[0].key) {
      NotBefore(b, a[0].key);
    } else if Less(b[0].key, a[0].key) {
      NotBefore(a, b[0].key);
    }
  }

  lemma NotBefore(m: seq<Member>, k: Text)
    requires m != [] && AllAbove(m[1..], m[0].key) && Less(k, m[0].key)
    ensures Find(m, k) == []
  {
    LessAsymmetric(k, m[0].key);
    forall i | 0 <= i < |m[1..]|
      ensures Less(k, m[1..][i].key)
    {
      LessTransitive(k, m[0].key, m[1..][i].key);
    }
    AboveNotFound(m[1..], k);
  }

  lemma MapIsInsertAll(ms: seq<Member>, ps: seq<Member>)
    ensures MapOf(ms, ps) <==> ms == InsertAll([], ps)
  {
    hide Sorted;
    EmptySorted();
    forall k
      ensures Find(InsertAll([], ps), k) == Find(ps, k)
    {
      InsertAllFinds([], ps, k);
    }
    InsertAllFinds([], ps, []);
    if MapOf(ms, ps) { SortedUnique(ms, InsertAll([], ps)); }
  }

  lemma EmptySorted()
    ensures Sorted([])
  {
  }

  // ---- names --------------------------------------------------------------------------

  /** A string and the colon after it. */
  ghost predicate LabelAt(s: Text, u: Text, rest: Text) {
    var t := Trim(true, s);
    Starts(t, '"') && exists more ::
      StringAt(true, t[1..], u, more) && Starts(Trim(true, more), ':') && rest == Trim(true, more)[1..]
  }

  lemma LabelExactly(s: Text, u: Text, rest: Text)
    ensures ParseKey(s) == Done(Str(u), rest) <==> LabelAt(s, u, rest)
  {
    hide NextToken, TokenHere, StringAt, Trim;
    NextTokenTrims(s);
    var t := Trim(true, s);
    if t != [] {
      forall more
        ensures TokenHere(t) == Tok(Scalar(Str(u)), more) <==> Starts(t, '"') && StringAt(true, t[1..], u, more)
      {
        ScalarExactly(t, Str(u), more);
      }
      if NextToken(s).Tok? && NextToken(s).token == Scalar(Str(u)) {
        ColonExactly(NextToken(s).rest, rest);
      }
    }
  }

  /** The next token is a punctuation. */
  lemma NextExactly(s: Text, p: Token, rest: Text)
    requires !p.Scalar? && !p.End?
    ensures NextToken(s) == Tok(p, rest) <==> Starts(Trim(true, s), CharOf(p)) && rest == Trim(true, s)[1..]
  {
    hide NextToken, TokenHere, Trim;
    NextTokenTrims(s);
    if Trim(true, s) != [] { PunctuationExactly(Trim(true, s), p, rest); }
  }

  lemma ColonExactly(s: Text, rest: Text)
    ensures NextToken(s) == Tok(Colon, rest) <==> Starts(Trim(true, s), ':') && rest == Trim(true, s)[1..]
  {
    NextExactly(s, Colon, rest);
  }

  lemma NameIsLabel(s: Text, key: Text, rest: Text)
    ensures NameAt(true, s, key, rest) <==> exists u :: LabelAt(s, u, rest) && Unescaped(u, key)
  {
    hide StringAt, Unescaped, Trim;
    var t := Trim(true, s);
    if NameAt(true, s, key, rest) {
      var u, more :| StringAt(true, t[1..], u, more) && StoredAs(true, u, key)
        && Starts(Trim(true, more), ':') && rest == Trim(true, more)[1..];
      assert LabelAt(s, u, rest);
    }
    forall u | LabelAt(s, u, rest) && Unescaped(u, key)
      ensures NameAt(true, s, key, rest)
    {
      var more :| StringAt(true, t[1..], u, more) && Starts(Trim(true, more), ':') && rest == Trim(true, more)[1..];
      assert StoredAs(true, u, key);
    }
  }

  // ---- the parser takes only such texts -----------------------------------------------

  lemma NoValueAtEnd()
    ensures NextToken([]) == AT_END
  {
  }

  /** What the parser made of a text, it read there. */
  lemma {:induction false} ValueSound(s: Text)
    requires ParseValue(s).Done?
    ensures var v, rest := ParseValue(s).value, ParseValue(s).rest;
      ValueAt(true, s, v, rest) || (rest == [] && CutValue(s, v))
    decreases |s|, 0
  {
    hide NextToken, TokenHere, ParseElems, ParseMembers, ElemsAt, PairsAt, CutElems, CutPairs, MapOf, Trim;
    NextTokenTrims(s);
    var t, r := Trim(true, s), ParseValue(s);
    match NextToken(s)
    case Tok(Scalar(v), rest) =>
      ScalarExactly(t, v, rest);
    case Tok(LB, rest) =>
      PunctuationExactly(t, LB, rest);
      var xs := ElemsSound(rest, []);
      assert [] + xs == xs;
    case Tok(LCB, rest) =>
      PunctuationExactly(t, LCB, rest);
      var ps := PairsSound(rest, []);
      MapIsInsertAll(r.value.members, ps);
    case _ =>
  }

  lemma {:induction false} ElemsSound(s: Text, acc: seq<Value>) returns (xs: seq<Value>)
    requires ParseElems(s, acc).Done?
    ensures ParseElems(s, acc).value == Arr(acc + xs)
    ensures var rest := ParseElems(s, acc).rest;
      ElemsAt(true, s, xs, rest) || (rest == [] && CutElems(s, xs))
    decreases |s|, 1
  {
    hide NextToken, ParseValue, ValueAt, CutValue, Unfinished, Trim;
    EndExactly(s);
    if NextToken(s).Tok? && NextToken(s).token == End {
      xs := [];
      assert acc + xs == acc;
    } else {
      var v, rest := ParseValue(s).value, ParseValue(s).rest;
      NoValueAtEnd();
      ValueSound(s);
      var more := NextToken(rest).rest;
      if NextToken(rest).token == RB {
        NextExactly(rest, RB, more);
        xs := [v];
      } else {
        NextExactly(rest, Comma, more);
        var ys := ElemsSound(more, acc + [v]);
        xs := [v] + ys;
        assert xs[1..] == ys && acc + [v] + ys == acc + xs;
      }
    }
  }

  lemma {:induction false} PairsSound(s: Text, acc: seq<Member>) returns (ps: seq<Member>)
    requires ParseMembers(s, acc).Done?
    ensures ParseMembers(s, acc).value == Obj(InsertAll(acc, ps))
    ensures var rest := ParseMembers(s, acc).rest;
      PairsAt(true, s, ps, rest) || (rest == [] && CutPairs(s, ps))
    decreases |s|, 1
  {
    hide NextToken, ParseValue, ParseKey, ValueAt, CutValue, Unfinished, Trim, LabelAt, NameAt, Unescape, Unescaped,
      Insert;
    EndExactly(s);
    if NextToken(s).Tok? && NextToken(s).token == End {
      ps := [];
    } else {
      var key, m := ParseKey(s).value, ParseKey(s).rest;
      LabelExactly(s, key.s, m);
      var v, rest := ParseValue(m).value, ParseValue(m).rest;
      NoValueAtEnd();
      ValueSound(m);
      var e := Member(Unescape(key.s).value, v);
      UnescapeExactly(key.s, e.key);
      NameIsLabel(s, e.key, m);
      var more := NextToken(rest).rest;
      if NextToken(rest).token == RCB {
        NextExactly(rest, RCB, more);
        ps := [e];
      } else {
        NextExactly(rest, Comma, more);
        var qs := PairsSound(more, Insert(acc, e));
        ps := [e] + qs;
        assert ps[1..] == qs;
      }
    }
  }

  // ---- and all of them ----------------------------------------------------------------

  /** What may follow a value inside a container. */
  predicate Stopped(s: Text) { s != [] && (Blank(true, s[0]) || s[0] in Ascii(",]}")) }

  lemma StoppedEnds(v: Value, s: Text)
    requires Stopped(s)
    ensures Ends(v, s)
  {
    assert Ascii(",]}") == [44, 93, 125] && Ascii(".eE") == [46, 101, 69] && Ascii(" \t\n\r") == [32, 9, 10, 13];
  }

  lemma TrimStopped(s: Text, c: char)
    requires Starts(Trim(true, s), c) && (c == ',' || c == ']' || c == '}')
    ensures Stopped(s)
  {
    assert Ascii(",]}") == [44, 93, 125];
  }

  lemma DoneIsNotEnd(s: Text)
    requires ParseValue(s).Done?
    ensures NotEnd(NextToken(s))
  {
    hide NextToken, ParseElems, ParseMembers;
  }

  lemma {:induction false} ValueComplete(s: Text, v: Value, rest: Text)
    requires ValueAt(true, s, v, rest) && Stopped(rest)
    ensures ParseValue(s) == Done(v, rest)
    decreases |s|, 0
  {
    hide NextToken, TokenHere, ParseElems, ParseMembers, ElemsAt, PairsAt, MapOf, Trim, Stopped, IntegerAt, StringAt,
      Ends;
    NextTokenTrims(s);
    var t := Trim(true, s);
    if IsScalar(v) {
      HereStarts(t, v, rest);
      StoppedEnds(v, rest);
      ScalarExactly(t, v, rest);
    } else if v.Arr? {
      PunctuationExactly(t, LB, t[1..]);
      ElemsComplete(t[1..], v.elems, [], rest);
      assert [] + v.elems == v.elems;
    } else {
      PunctuationExactly(t, LCB, t[1..]);
      var ps :| PairsAt(true, t[1..], ps, rest) && MapOf(v.members, ps);
      PairsComplete(t[1..], ps, [], rest);
      MapIsInsertAll(v.members, ps);
    }
  }

  lemma {:induction false} ElemsComplete(s: Text, xs: seq<Value>, acc: seq<Value>, rest: Text)
    requires ElemsAt(true, s, xs, rest)
    ensures ParseElems(s, acc) == Done(Arr(acc + xs), rest)
    decreases |s|, 1
  {
    hide NextToken, ParseValue, ParseElems, ValueAt, Trim, Stopped;
    var m :| |m| < |s| && ValueAt(true, s, xs[0], m) && ElemsAfter(true, m, xs[1..], rest);
    TrimStopped(m, if xs[1..] == [] then ']' else ',');
    ValueComplete(s, xs[0], m);
    DoneIsNotEnd(s);
    ElemTurn(s, acc, Fine(xs[0]), m);
    var t := Trim(true, m);
    if xs[1..] == [] {
      NextExactly(m, RB, t[1..]);
      assert xs == [xs[0]];
    } else {
      NextExactly(m, Comma, t[1..]);
      ElemsComplete(t[1..], xs[1..], acc + [xs[0]], rest);
      assert acc + [xs[0]] + xs[1..] == acc + xs;
    }
  }

  lemma {:induction false} PairsComplete(s: Text, ps: seq<Member>, acc: seq<Member>, rest: Text)
    requires PairsAt(true, s, ps, rest)
    ensures ParseMembers(s, acc) == Done(Obj(InsertAll(acc, ps)), rest)
    decreases |s|, 1
  {
    hide NextToken, ParseValue, ParseKey, ValueAt, Trim, Stopped, NameAt, LabelAt, Unescape, Unescaped, Insert;
    var m, more :| && |more| < |m| < |s| && NameAt(true, s, ps[0].key, m)
      && ValueAt(true, m, ps[0].val, more) && PairsAfter(true, more, ps[1..], rest);
    TrimStopped(more, if ps[1..] == [] then '}' else ',');
    ValueComplete(m, ps[0].val, more);
    PairTaken(s, ps[0], m);
    var t := Trim(true, more);
    if ps[1..] == [] {
      NextExactly(more, RCB, t[1..]);
    } else {
      NextExactly(more, Comma, t[1..]);
      PairsComplete(t[1..], ps[1..], Insert(acc, ps[0]), rest);
    }
  }

  /** The name of a pair is read as the parser stores it. */
  lemma PairTaken(s: Text, p: Member, m: Text)
    requires NameAt(true, s, p.key, m)
    ensures NotEnd(NextToken(s))
    ensures var r := ParseKey(s); r.Done? && r.rest == m && Unescape(r.value.s) == Ok(p.key)
  {
    hide NextToken, ParseKey, LabelAt, NameAt, Unescape, Unescaped;
    NameIsLabel(s, p.key, m);
    var u :| LabelAt(s, u, m) && Unescaped(u, p.key);
    LabelExactly(s, u, m);
    UnescapeExactly(u, p.key);
    KeyIsNotEnd(s);
  }

  lemma KeyIsNotEnd(s: Text)
    requires ParseKey(s).Done?
    ensures NotEnd(NextToken(s))
  {
    hide NextToken;
  }

  lemma EndsElems(s: Text, acc: seq<Value>)
    requires NextToken(s).Tok? && NextToken(s).token == End
    ensures ParseElems(s, acc) == Done(Arr(acc), [])
  {
    hide NextToken;
  }

  lemma {:induction false} CutElemsComplete(s: Text, xs: seq<Value>, acc: seq<Value>)
    requires CutElems(s, xs)
    ensures ParseElems(s, acc) == Done(Arr(acc + xs), [])
    decreases |s|
  {
    hide NextToken, ParseValue, ParseElems, ValueAt, Trim, Stopped, Unfinished;
    EndExactly(s);
    if xs == [] {
      EndsElems(s, acc);
      assert acc + xs == acc;
    } else {
      var m :| && |m| < |s| && ValueAt(true, s, xs[0], m) && Starts(Trim(true, m), ',')
        && CutElems(Trim(true, m)[1..], xs[1..]);
      TrimStopped(m, ',');
      ValueComplete(s, xs[0], m);
      DoneIsNotEnd(s);
      ElemTurn(s, acc, Fine(xs[0]), m);
      var t := Trim(true, m);
      NextExactly(m, Comma, t[1..]);
      CutElemsComplete(t[1..], xs[1..], acc + [xs[0]]);
      assert acc + [xs[0]] + xs[1..] == acc + xs;
    }
  }

  lemma {:induction false} CutPairsComplete(s: Text, ps: seq<Member>, acc: seq<Member>)
    requires CutPairs(s, ps)
    ensures ParseMembers(s, acc) == Done(Obj(InsertAll(acc, ps)), [])
    decreases |s|
  {
    hide NextToken, ParseValue, ParseKey, ValueAt, Trim, Stopped, NameAt, LabelAt, Unescape, Unescaped, Insert,
      Unfinished;
    EndExactly(s);
    if ps != [] {
      var m, more :| && |more| < |m| < |s| && NameAt(true, s, ps[0].key, m) && ValueAt(true, m, ps[0].val, more)
        && Starts(Trim(true, more), ',') && CutPairs(Trim(true, more)[1..], ps[1..]);
      TrimStopped(more, ',');
      ValueComplete(m, ps[0].val, more);
      PairTaken(s, ps[0], m);
      var t := Trim(true, more);
      NextExactly(more, Comma, t[1..]);
      CutPairsComplete(t[1..], ps[1..], Insert(acc, ps[0]));
    }
  }

  lemma ArrayAt(s: Text, xs: seq<Value>, rest: Text)
    ensures ValueAt(true, s, Arr(xs), rest) <==>
      Starts(Trim(true, s), '[') && ElemsAt(true, Trim(true, s)[1..], xs, rest)
  {
    hide ElemsAt, Trim;
  }

  lemma ObjectAt(s: Text, ms: seq<Member>, rest: Text)
    ensures ValueAt(true, s, Obj(ms), rest) <==>
      Starts(Trim(true, s), '{') && exists ps :: PairsAt(true, Trim(true, s)[1..], ps, rest) && MapOf(ms, ps)
  {
    hide PairsAt, Trim, MapOf;
  }

  lemma ArrayTaken(s: Text, xs: seq<Value>, rest: Text)
    requires ValueAt(true, s, Arr(xs), rest) || (rest == [] && CutValue(s, Arr(xs)))
    ensures Parse(s) == Done(Arr(xs), rest)
  {
    hide NextToken, ParseElems, ParseMembers, ElemsAt, CutElems, Trim, ValueAt;
    var t := Trim(true, s);
    ArrayAt(s, xs, rest);
    NextExactly(s, LB, t[1..]);
    assert [] + xs == xs;
    if ValueAt(true, s, Arr(xs), rest) {
      ElemsComplete(t[1..], xs, [], rest);
    } else {
      CutElemsComplete(t[1..], xs, []);
    }
  }

  lemma ObjectTaken(s: Text, ms: seq<Member>, rest: Text)
    requires ValueAt(true, s, Obj(ms), rest) || (rest == [] && CutValue(s, Obj(ms)))
    ensures Parse(s) == Done(Obj(ms), rest)
  {
    hide NextToken, ParseElems, ParseMembers, PairsAt, CutPairs, Trim, ValueAt, MapOf;
    var t := Trim(true, s);
    ObjectAt(s, ms, rest);
    NextExactly(s, LCB, t[1..]);
    if ValueAt(true, s, Obj(ms), rest) {
      var ps :| PairsAt(true, t[1..], ps, rest) && MapOf(ms, ps);
      PairsComplete(t[1..], ps, [], rest);
      MapIsInsertAll(ms, ps);
    } else {
      var ps :| CutPairs(t[1..], ps) && MapOf(ms, ps);
      CutPairsComplete(t[1..], ps, []);
      MapIsInsertAll(ms, ps);
    }
  }

  /**
   * from_string, for every text: it gives v and stops at rest exactly when v is a container and either
   * the text starts with v by the lax grammar and goes on with rest, or the input ends inside v.
   */
  lemma ParseExactly(s: Text, v: Value, rest: Text)
    ensures Parse(s) == Done(v, rest) <==>
      (v.Arr? || v.Obj?) && (ValueAt(true, s, v, rest) || (rest == [] && CutValue(s, v)))
  {
    hide *;
    if Parse(s) == Done(v, rest) {
      TopIsValue(s);
      ValueSound(s);
    }
    if ValueAt(true, s, v, rest) || (rest == [] && CutValue(s, v)) {
      if v.Arr? { ArrayTaken(s, v.elems, rest); }
      if v.Obj? { ObjectTaken(s, v.members, rest); }
    }
  }

  lemma TopIsValue(s: Text)
    requires Parse(s).Done?
    ensures ParseValue(s) == Parse(s) && (Parse(s).value.Arr? || Parse(s).value.Obj?)
  {
    hide NextToken;
    ContainerKinds(s);
  }

  lemma ContainerKinds(s: Text)
    ensures forall r, acc :: NextToken(s) == Tok(LB, r) && ParseElems(r, acc).Done? ==> ParseElems(r, acc).value.Arr?
    ensures forall r, acc ::
      NextToken(s) == Tok(LCB, r) && ParseMembers(r, acc).Done? ==> ParseMembers(r, acc).value.Obj?
  {
    hide NextToken, ParseElems, ParseMembers;
    forall r, acc | ParseElems(r, acc).Done?
      ensures ParseElems(r, acc).value.Arr?
    {
      var _ := ElemsSound(r, acc);
    }
    forall r, acc | ParseMembers(r, acc).Done?
      ensures ParseMembers(r, acc).value.Obj?
    {
      var _ := PairsSound(r, acc);
    }
  }
}
