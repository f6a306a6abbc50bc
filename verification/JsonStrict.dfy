/**
 * A text of RFC 8259 whose value is clean is taken by the parser of libjson, and as that value
 * (libjson/src/parser.cpp).
 */
module JsonStrict {

  import opened Utf
  import opened Escapes
  import opened JsonValue
  import opened JsonGrammar
  import opened JsonLexer
  import opened JsonParser
  import opened JsonRoundTrip
  import opened JsonAccepts
  import opened JsonExact

  // ---- white space --------------------------------------------------------------------

  /** Lax white space ends where strict white space does, unless it goes on with the two octets more. */
  lemma {:induction false} TrimSame(s: Text)
    requires var t := Trim(false, s); t != [] && t[0] != 11 && t[0] != 12
    ensures Trim(true, s) == Trim(false, s)
  {
    if Blank(false, s[0]) { TrimSame(s[1..]); }
  }

  lemma HereVisible(s: Text, v: Value, rest: Text)
    requires HereAt(false, s, v, rest)
    ensures s != [] && s[0] != 11 && s[0] != 12
  {
    hide CharsAt, ElemsAt, PairsAt, MapOf, Worth;
    if v.Int? {
      var ds :| Numeral(false, ds) && (s == ds + rest || s == Ascii("-") + ds + rest);
      MinusFirst(ds, rest);
    }
  }

  // ---- strings ------------------------------------------------------------------------

  /** Octets that are neither a quote nor a backslash are read one by one. */
  lemma {:induction false} BodyOctets(t: Text, s: Text)
    requires QUOTE !in t && BACKSLASH !in t
    ensures StringBody(t + s) == Before(t, StringBody(s))
    decreases |t|
  {
    if t == [] {
      assert t + s == s;
      BeforeNothing(StringBody(s));
    } else {
      assert (t + s)[1..] == t[1..] + s;
      BodyOctets(t[1..], s);
      BeforeTwice([t[0]], t[1..], StringBody(s));
      assert [t[0]] + t[1..] == t;
    }
  }

  lemma BeforeNothing(r: StringRead)
    ensures Before([], r) == r
  {
    if r.Body? { assert [] + r.str == r.str; }
  }

  lemma BeforeTwice(a: Text, b: Text, r: StringRead)
    ensures Before(a, Before(b, r)) == Before(a + b, r)
  {
    if r.Body? { assert a + (b + r.str) == a + b + r.str; }
  }

  lemma ItemRead(s: Text, piece: Text, more: Text)
    requires ItemAt(false, s, piece, more) && !Starts(s, '"')
    ensures StringBody(s) == Before(piece, StringBody(more))
  {
    hide StringBody, PointAt, Meaning, FirstItem;
    if PlainAt(false, s, piece, more) {
      PlainOctets(s, piece, more);
      BodyOctets(piece, more);
    } else {
      PointLax(s, piece, more);
      ItemShrinks(false, s, piece, more);
      ItemExactly(s, piece, more);
      BodyFolds(s);
    }
  }

  lemma PointLax(s: Text, piece: Text, more: Text)
    ensures PointAt(false, s, piece, more) ==> PointAt(true, s, piece, more)
  {
    hide FourHex, Encodes;
  }

  lemma PlainOctets(s: Text, piece: Text, more: Text)
    requires PlainAt(false, s, piece, more) && !Starts(s, '"')
    ensures QUOTE !in piece && BACKSLASH !in piece
  {
    assert forall i :: 0 < i < |piece| ==> piece[i] == s[i] && s[i] >= 0x80;
    assert piece != [] && piece[0] == s[0];
  }

  lemma {:induction false} CharsLax(s: Text, str: Text, rest: Text)
    requires CharsAt(false, s, str, rest)
    ensures StringBody(s) == Body(str, rest)
    decreases |s|
  {
    hide ItemAt, StringBody, Before;
    if Starts(s, '"') {
      QuoteEnds(s);
    } else {
      var piece, more :| ItemAt(false, s, piece, more) && |more| < |s| && piece <= str
        && CharsAt(false, more, str[|piece|..], rest);
      CharsLax(more, str[|piece|..], rest);
      ItemRead(s, piece, more);
      BeforeIs(piece, StringBody(more), str, rest);
    }
  }

  /** A string without a backslash is read as it is spelt. */
  lemma StringLax(s: Text, u: Text, rest: Text)
    requires StringAt(false, s, u, rest) && BACKSLASH !in u
    ensures StringAt(true, s, u, rest)
  {
    hide CharsAt, StringBody, Unescape, Unescaped;
    var str :| CharsAt(false, s, str, rest) && str == u;
    CharsLax(s, u, rest);
    BodyExactly(s, u, rest);
    CleanStored(u);
  }

  lemma CleanStored(u: Text)
    requires BACKSLASH !in u
    ensures StoredAs(true, u, u)
  {
    hide Unescape;
    UnescapeFixed(u);
    UnescapeExactly(u, u);
  }

  // ---- values -------------------------------------------------------------------------

  lemma NumberLax(s: Text, n: int, rest: Text)
    requires IntegerAt(false, s, n, rest) && n != 0
    ensures IntegerAt(true, s, n, rest)
  {
    var ds :| Numeral(false, ds)
      && ((s == ds + rest && n == Worth(ds)) || (s == Ascii("-") + ds + rest && n == -Worth(ds)));
    LoneZero(ds);
    assert Numeral(true, ds);
  }

  lemma LoneZero(ds: Text)
    requires Numeral(false, ds)
    ensures Starts(ds, '0') ==> Worth(ds) == 0
  {
    if |ds| == 1 { assert ds[1..] == []; }
  }

  lemma {:induction false} ValueLax(s: Text, v: Value, rest: Text)
    requires ValueAt(false, s, v, rest) && Clean(v)
    ensures ValueAt(true, s, v, rest)
    decreases |s|, 1
  {
    hide HereAt, Trim, Clean;
    var t := Trim(false, s);
    HereVisible(t, v, rest);
    TrimSame(s);
    HereLax(t, v, rest);
  }

  lemma {:induction false} HereLax(t: Text, v: Value, rest: Text)
    requires HereAt(false, t, v, rest) && Clean(v)
    ensures HereAt(true, t, v, rest)
    decreases |t|, 0
  {
    hide Trim, IntegerAt, StringAt, ElemsAt, PairsAt, MapOf, Unique, AllClean, MembersClean;
    match v
    case Int(n) => NumberLax(t, n, rest);
    case Str(u) => StringLax(t[1..], u, rest);
    case Arr(xs) => ElemsLax(t[1..], xs, rest);
    case Obj(ms) =>
      var ps :| PairsAt(false, t[1..], ps, rest) && MapOf(ms, ps) && Unique(ps);
      PairsClean(ms, ps);
      PairsLax(t[1..], ps, rest);
    case _ =>
  }

  lemma {:induction false} ElemsLax(s: Text, xs: seq<Value>, rest: Text)
    requires ElemsAt(false, s, xs, rest) && AllClean(xs)
    ensures ElemsAt(true, s, xs, rest)
    decreases |s|, 2
  {
    hide Trim, ValueAt, Clean;
    var m :| |m| < |s| && ValueAt(false, s, xs[0], m) && ElemsAfter(false, m, xs[1..], rest);
    ValueLax(s, xs[0], m);
    CloseSame(m, if xs[1..] == [] then ']' else ',');
    var t := Trim(false, m);
    if xs[1..] != [] { ElemsLax(t[1..], xs[1..], rest); }
    assert ElemsAfter(true, m, xs[1..], rest);
  }

  lemma CloseSame(s: Text, c: char)
    requires Starts(Trim(false, s), c) && (c == ']' || c == '}' || c == ',' || c == ':' || c == '"')
    ensures Trim(true, s) == Trim(false, s)
  {
    TrimSame(s);
  }

  predicate PairsAllClean(ps: seq<Member>) {
    forall i :: 0 <= i < |ps| ==> KeyClean(ps[i]) && Clean(ps[i].val)
  }

  lemma {:induction false} FoundMember(ms: seq<Member>, k: Text, v: Value)
    requires Find(ms, k) == [v]
    ensures Member(k, v) in ms
  {
    if ms[0].key != k { FoundMember(ms[1..], k, v); }
  }

  lemma {:induction false} CleanMember(ms: seq<Member>, m: Member)
    requires MembersClean(ms) && m in ms
    ensures KeyClean(m) && Clean(m.val)
  {
    hide Clean;
    if m != ms[0] { CleanMember(ms[1..], m); }
  }

  lemma {:induction false} FindsItself(ps: seq<Member>, i: nat)
    requires Unique(ps) && i < |ps|
    ensures Find(ps, ps[i].key) == [ps[i].val]
  {
    if i > 0 {
      assert forall j :: 0 <= j < |ps| - 1 ==> ps[1..][j] == ps[j + 1];
      FindsItself(ps[1..], i - 1);
    }
  }

  /** The pairs of a clean object with unique names are its members. */
  lemma PairsClean(ms: seq<Member>, ps: seq<Member>)
    requires MapOf(ms, ps) && Unique(ps) && MembersClean(ms)
    ensures PairsAllClean(ps)
  {
    hide Clean, MembersClean, Unique, Sorted;
    forall i | 0 <= i < |ps|
      ensures KeyClean(ps[i]) && Clean(ps[i].val)
    {
      FindsItself(ps, i);
      FoundMember(ms, ps[i].key, ps[i].val);
      CleanMember(ms, ps[i]);
    }
  }

  lemma NameLax(s: Text, key: Text, rest: Text)
    requires NameAt(false, s, key, rest) && BACKSLASH !in key
    ensures NameAt(true, s, key, rest)
  {
    hide Trim, StringAt, Unescaped;
    var t := Trim(false, s);
    var u, more :| StringAt(false, t[1..], u, more) && StoredAs(false, u, key)
      && Starts(Trim(false, more), ':') && rest == Trim(false, more)[1..];
    CloseSame(s, '"');
    CloseSame(more, ':');
    StringLax(t[1..], u, more);
    CleanStored(u);
  }

  lemma {:induction false} PairsLax(s: Text, ps: seq<Member>, rest: Text)
    requires PairsAt(false, s, ps, rest) && PairsAllClean(ps)
    ensures PairsAt(true, s, ps, rest)
    decreases |s|, 2
  {
    hide Trim, ValueAt, NameAt, Clean;
    var m, more :| && |more| < |m| < |s| && NameAt(false, s, ps[0].key, m)
      && ValueAt(false, m, ps[0].val, more) && PairsAfter(false, more, ps[1..], rest);
    assert KeyClean(ps[0]);
    NameLax(s, ps[0].key, m);
    ValueLax(m, ps[0].val, more);
    CloseSame(more, if ps[1..] == [] then '}' else ',');
    var t := Trim(false, more);
    if ps[1..] != [] { PairsLax(t[1..], ps[1..], rest); }
    assert PairsAfter(true, more, ps[1..], rest);
  }

  /** A text of RFC 8259 of a clean object or array, whatever follows it, parses to it. */
  lemma StrictTextParses(s: Text, v: Value, rest: Text)
    requires ValueAt(false, s, v, rest) && Clean(v) && (v.Arr? || v.Obj?)
    ensures Parse(s) == Done(v, rest)
  {
    hide *;
    ValueLax(s, v, rest);
    ParseExactly(s, v, rest);
  }
}
