/**
 * When a JSON value survives being printed and parsed: exactly when it is clean.
 */
module JsonRoundTrip {

  import opened Utf
  import opened JsonValue
  import opened JsonLexer
  import opened JsonParser

  /**
   * No empty container, no integer 0 and no backslash in a string or a key: what a caller
   * can check before printing.
   */
  predicate Clean(v: Value) {
    match v
    case Null | Bool(_) => true
    case Int(n) => n != 0
    case Str(s) => BACKSLASH !in s
    case Arr(xs) => xs != [] && AllClean(xs)
    case Obj(ms) => ms != [] && MembersClean(ms)
  }

  predicate AllClean(xs: seq<Value>) { xs == [] || (Clean(xs[0]) && AllClean(xs[1..])) }

  predicate KeyClean(m: Member) { BACKSLASH !in m.key }

  predicate MembersClean(ms: seq<Member>) {
    ms == [] || (KeyClean(ms[0]) && Clean(ms[0].val) && MembersClean(ms[1..]))
  }

  predicate KeysClean(ms: seq<Member>) { forall i :: 0 <= i < |ms| ==> KeyClean(ms[i]) }

  // ---- arrays -------------------------------------------------------------------------

  lemma {:induction false} ElemsExtend(xs: seq<Value>, acc: seq<Value>)
    ensures ImageElems(xs, acc).Fine? ==>
      ImageElems(xs, acc).v.Arr? && acc <= ImageElems(xs, acc).v.elems
    decreases xs
  {
    hide Image;
    if xs != [] && Image(xs[0]).Fine? {
      ElemsExtend(xs[1..], acc + [Image(xs[0]).v]);
    }
  }

  lemma {:induction false} ElemsFixed(xs: seq<Value>, acc: seq<Value>)
    requires AllWellFormed(xs)
    ensures ImageElems(xs, acc) == Fine(Arr(acc + xs)) <==> AllClean(xs)
    decreases xs
  {
    hide Image, Clean;
    if xs == [] {
      assert acc + xs == acc;
    } else {
      ValueFixed(xs[0]);
      if Image(xs[0]).Fine? {
        var w := Image(xs[0]).v;
        ElemsExtend(xs[1..], acc + [w]);
        ElemsFixed(xs[1..], acc + [w]);
        Regrouped(acc, xs, w);
      }
    }
  }

  lemma Regrouped<T>(acc: seq<T>, xs: seq<T>, w: T)
    requires xs != []
    ensures acc + [w] <= acc + xs ==> w == xs[0]
    ensures w == xs[0] ==> acc + [w] + xs[1..] == acc + xs
  {
    assert (acc + xs)[|acc|] == xs[0];
    if acc + [w] <= acc + xs { assert (acc + [w])[|acc|] == (acc + xs)[|acc|]; }
  }

  // ---- objects ------------------------------------------------------------------------

  lemma {:induction false} LessIrreflexive(a: Text)
    ensures !Less(a, a)
  {
    if a != [] { LessIrreflexive(a[1..]); }
  }

  lemma {:induction false} LessAsymmetric(a: Text, b: Text)
    requires Less(a, b)
    ensures !Less(b, a) && a != b
  {
    if a != [] && a[0] == b[0] { LessAsymmetric(a[1..], b[1..]); }
  }

  lemma {:induction false} LessTransitive(a: Text, b: Text, c: Text)
    requires Less(a, b) && Less(b, c)
    ensures Less(a, c)
  {
    if a != [] && a[0] == b[0] == c[0] { LessTransitive(a[1..], b[1..], c[1..]); }
  }

  lemma {:induction false} LessTotal(a: Text, b: Text)
    ensures Less(a, b) || a == b || Less(b, a)
  {
    if a != [] && b != [] && a[0] == b[0] {
      LessTotal(a[1..], b[1..]);
      assert a == [a[0]] + a[1..] && b == [b[0]] + b[1..];
    }
  }

  /** The order is lexicographic: the first difference decides, and a proper prefix comes first. */
  lemma {:induction false} LessExactly(a: Text, b: Text)
    ensures Less(a, b) <==> exists i: nat :: FirstAt(a, b, i)
  {
    if a != [] && b != [] && a[0] == b[0] {
      LessExactly(a[1..], b[1..]);
      forall i: nat | FirstAt(a[1..], b[1..], i)
        ensures FirstAt(a, b, i + 1)
      {
        assert forall j :: 0 < j <= i ==> a[j] == a[1..][j - 1] && b[j] == b[1..][j - 1];
      }
      forall i: nat | FirstAt(a, b, i)
        ensures i > 0 && FirstAt(a[1..], b[1..], i - 1)
      {
        assert forall j :: 0 <= j < i - 1 ==> a[1..][j] == a[j + 1] && b[1..][j] == b[j + 1];
      }
    } else if b != [] {
      assert Less(a, b) ==> FirstAt(a, b, 0);
    }
  }

  /** Up to i both are the same, and there a ends or has the smaller octet. */
  predicate FirstAt(a: Text, b: Text, i: nat) {
    i <= |a| && i < |b| && (forall j :: 0 <= j < i ==> a[j] == b[j]) && (i == |a| || a[i] < b[i])
  }

  predicate AllAbove(m: seq<Member>, k: Text) { forall i :: 0 <= i < |m| ==> Less(k, m[i].key) }

  lemma SortedUnfold(m: seq<Member>)
    requires m != []
    ensures Sorted(m) <==> AllAbove(m[1..], m[0].key) && Sorted(m[1..])
  {
    hide Less;
    if AllAbove(m[1..], m[0].key) && Sorted(m[1..]) {
      forall i, j | 0 <= i < j < |m|
        ensures Less(m[i].key, m[j].key)
      {
        assert m[j] == m[1..][j - 1];
        if i > 0 { assert m[i] == m[1..][i - 1]; }
      }
    }
  }

  lemma {:induction false} AboveNotFound(m: seq<Member>, k: Text)
    requires AllAbove(m, k)
    ensures Find(m, k) == []
  {
    if m != [] {
      LessAsymmetric(k, m[0].key);
      AboveNotFound(m[1..], k);
    }
  }

  /** Inserting keeps the order, adds a missing key and leaves every other answer alone. */
  lemma {:induction false} InsertRefines(m: seq<Member>, e: Member, k: Text)
    requires Sorted(m)
    ensures Sorted(Insert(m, e))
    ensures Find(Insert(m, e), k) == if k == e.key && Find(m, k) == [] then [e.val] else Find(m, k)
    ensures forall a :: AllAbove(m, a) && Less(a, e.key) ==> AllAbove(Insert(m, e), a)
  {
    var r := Insert(m, e);
    if m != [] {
      SortedUnfold(m);
      if Less(e.key, m[0].key) {
        forall i | 0 <= i < |m|
          ensures Less(e.key, m[i].key)
        {
          if i > 0 { LessTransitive(e.key, m[0].key, m[1..][i - 1].key); }
        }
        assert r[1..] == m;
        SortedUnfold(r);
        AboveNotFound(m, e.key);
      } else if e.key != m[0].key {
        InsertRefines(m[1..], e, k);
        LessTotal(e.key, m[0].key);
        assert r[1..] == Insert(m[1..], e);
        SortedUnfold(r);
      }
    }
  }

  /** A key above all others goes to the end. */
  lemma {:induction false} InsertLast(m: seq<Member>, e: Member)
    requires forall i :: 0 <= i < |m| ==> Less(m[i].key, e.key)
    ensures Insert(m, e) == m + [e]
  {
    if m != [] {
      LessAsymmetric(m[0].key, e.key);
      InsertLast(m[1..], e);
      assert m == [m[0]] + m[1..];
    }
  }

  function KeyWeight(ms: seq<Member>): (n: nat) {
    if ms == [] then 0 else |ms[0].key| + KeyWeight(ms[1..])
  }

  lemma {:induction false} WeightAppend(a: seq<Member>, b: seq<Member>)
    ensures KeyWeight(a + b) == KeyWeight(a) + KeyWeight(b)
  {
    if a == [] {
      assert a + b == b;
    } else {
      assert (a + b)[1..] == a[1..] + b;
      WeightAppend(a[1..], b);
    }
  }

  lemma {:induction false} WeightInsert(m: seq<Member>, e: Member)
    ensures KeyWeight(Insert(m, e)) <= KeyWeight(m) + |e.key|
  {
    if m != [] {
      WeightInsert(m[1..], e);
      assert ([e] + m)[1..] == m;
      assert ([m[0]] + Insert(m[1..], e))[1..] == Insert(m[1..], e);
    }
  }

  lemma {:induction false} UnescapedTwice(k: Text)
    requires Unescape(k).Ok? && Unescape(Unescape(k).value).Ok?
    ensures |Unescape(Unescape(k).value).value| <= |k|
    ensures BACKSLASH in k ==> |Unescape(Unescape(k).value).value| < |k|
    ensures BACKSLASH !in k ==> Unescape(Unescape(k).value).value == k
  {
    hide Unescape;
    UnescapeShortens(k);
    UnescapeShortens(Unescape(k).value);
    UnescapeFixed(k);
  }

  /** Keys only ever get lighter, so an object with a backslash in a key cannot come back. */
  lemma {:induction false} MembersWeight(ms: seq<Member>, acc: seq<Member>)
    requires ImageMembers(ms, acc).Fine?
    ensures ImageMembers(ms, acc).v.Obj?
    ensures KeyWeight(ImageMembers(ms, acc).v.members) <= KeyWeight(acc) + KeyWeight(ms)
    ensures !KeysClean(ms) ==>
      KeyWeight(ImageMembers(ms, acc).v.members) < KeyWeight(acc) + KeyWeight(ms)
    decreases ms
  {
    hide Image, Unescape, Insert;
    if ms != [] {
      var m := ms[0];
      UnescapedTwice(m.key);
      var e := Member(Unescape(Unescape(m.key).value).value, Image(m.val).v);
      WeightInsert(acc, e);
      MembersWeight(ms[1..], Insert(acc, e));
      if !KeysClean(ms) && KeysClean(ms[1..]) {
        assert forall i :: 1 <= i < |ms| ==> ms[i] == ms[1..][i - 1];
      }
    }
  }

  lemma SortedStep(acc: seq<Member>, ms: seq<Member>, v: Value)
    requires ms != [] && Sorted(acc + ms)
    ensures forall i :: 0 <= i < |acc| ==> Less(acc[i].key, ms[0].key)
    ensures Sorted(acc + [Member(ms[0].key, v)] + ms[1..])
  {
    hide Less;
    var all, now := acc + ms, acc + [Member(ms[0].key, v)] + ms[1..];
    assert all[|acc|] == ms[0];
    assert forall i :: 0 <= i < |acc| ==> all[i] == acc[i];
    assert forall i :: 0 <= i < |now| ==> now[i].key == all[i].key;
  }

  /** With clean keys in order every member is appended. */
  lemma AppendTurn(ms: seq<Member>, acc: seq<Member>)
    requires ms != [] && Sorted(acc + ms) && KeyClean(ms[0])
    ensures ImageMembers(ms, acc) ==
      if Image(ms[0].val).Fine? then ImageMembers(ms[1..], acc + [Member(ms[0].key, Image(ms[0].val).v)])
      else Image(ms[0].val)
  {
    hide Image, Unescape, Insert;
    UnescapeFixed(ms[0].key);
    if Image(ms[0].val).Fine? {
      SortedStep(acc, ms, Image(ms[0].val).v);
      InsertLast(acc, Member(ms[0].key, Image(ms[0].val).v));
    }
  }

  lemma {:induction false} MembersExtend(ms: seq<Member>, acc: seq<Member>)
    requires Sorted(acc + ms) && KeysClean(ms)
    ensures ImageMembers(ms, acc).Fine? ==>
      ImageMembers(ms, acc).v.Obj? && acc <= ImageMembers(ms, acc).v.members
    decreases ms
  {
    if ms != [] {
      hide Image, ImageMembers, Sorted;
      AppendTurn(ms, acc);
      if Image(ms[0].val).Fine? {
        var w := Image(ms[0].val).v;
        SortedStep(acc, ms, w);
        MembersExtend(ms[1..], acc + [Member(ms[0].key, w)]);
      }
    }
  }

  lemma {:induction false} MembersFixed(ms: seq<Member>, acc: seq<Member>)
    requires Sorted(acc + ms) && MembersWellFormed(ms) && KeysClean(ms)
    ensures ImageMembers(ms, acc) == Fine(Obj(acc + ms)) <==> MembersClean(ms)
    decreases ms
  {
    if ms == [] {
      assert acc + ms == acc;
    } else {
      hide Image, ImageMembers, Sorted, Clean;
      AppendTurn(ms, acc);
      ValueFixed(ms[0].val);
      if Image(ms[0].val).Fine? {
        var w := Image(ms[0].val).v;
        var e := Member(ms[0].key, w);
        SortedStep(acc, ms, w);
        MembersExtend(ms[1..], acc + [e]);
        MembersFixed(ms[1..], acc + [e]);
        Regrouped(acc, ms, e);
      }
    }
  }

  lemma {:induction false} CleanKeys(ms: seq<Member>)
    requires MembersClean(ms)
    ensures KeysClean(ms)
  {
    if ms != [] {
      CleanKeys(ms[1..]);
      assert forall i :: 1 <= i < |ms| ==> ms[i] == ms[1..][i - 1];
    }
  }

  lemma ObjectFixed(ms: seq<Member>)
    requires Sorted(ms)
    requires KeysClean(ms) ==> (ImageMembers(ms, []) == Fine(Obj([] + ms)) <==> MembersClean(ms))
    ensures ImageMembers(ms, []) == Fine(Obj(ms)) <==> MembersClean(ms)
  {
    hide ImageMembers, MembersClean;
    assert [] + ms == ms;
    if KeysClean(ms) {
    } else {
      if ImageMembers(ms, []).Fine? { MembersWeight(ms, []); }
      if MembersClean(ms) { CleanKeys(ms); }
    }
  }

  // ---- all values ---------------------------------------------------------------------

  /** The image of a value is the value itself exactly when it is clean. */
  lemma {:induction false} ValueFixed(v: Value)
    requires WellFormed(v)
    ensures Image(v) == Fine(v) <==> Clean(v)
    decreases v
  {
    match v
    case Str(s) => UnescapeFixed(s);
    case Arr(xs) =>
      ElemsFixed(xs, []);
      assert [] + xs == xs;
    case Obj(ms) =>
      assert [] + ms == ms;
      if KeysClean(ms) { MembersFixed(ms, []); }
      ObjectFixed(ms);
    case _ =>
  }

  /**
   * The round trip of libjson: printing an object or array of valid UTF-8 strings, pretty
   * or not and at any indent, and parsing the text gives the value back if and only if the
   * value is clean.
   */
  lemma RoundTrip(v: Value, pretty: bool, indent: nat)
    requires WellFormed(v) && Utf8Inside(v) && (v.Arr? || v.Obj?)
    ensures Parse(Shown(v, pretty, indent)) == Done(v, []) <==> Clean(v)
  {
    hide Parse, Shown, Image;
    PrintedParses(v, pretty, indent, []);
    assert Shown(v, pretty, indent) + [] == Shown(v, pretty, indent);
    ValueFixed(v);
  }

  /** Values with valid UTF-8 inside can always be printed. */
  lemma {:induction false} Utf8IsShowable(v: Value)
    requires Utf8Inside(v)
    ensures Showable(v)
    decreases v
  {
    hide Escape;
    match v
    case Str(s) => EscapeRoundTrip(s);
    case Arr(xs) => Utf8ElemsShowable(xs);
    case Obj(ms) => Utf8MembersShowable(ms);
    case _ =>
  }

  lemma {:induction false} Utf8ElemsShowable(xs: seq<Value>)
    requires AllUtf8(xs)
    ensures AllShowable(xs)
    decreases xs
  {
    if xs != [] {
      Utf8IsShowable(xs[0]);
      Utf8ElemsShowable(xs[1..]);
    }
  }

  lemma {:induction false} Utf8MembersShowable(ms: seq<Member>)
    requires MembersUtf8(ms)
    ensures MembersShowable(ms)
    decreases ms
  {
    if ms != [] {
      EscapeRoundTrip(ms[0].key);
      Utf8IsShowable(ms[0].val);
      Utf8MembersShowable(ms[1..]);
    }
  }

  // ---- every parsed value is well formed ----------------------------------------------

  lemma {:induction false} WellFormedAppend(xs: seq<Value>, v: Value)
    requires AllWellFormed(xs) && WellFormed(v)
    ensures AllWellFormed(xs + [v])
  {
    hide WellFormed;
    if xs != [] {
      assert (xs + [v])[1..] == xs[1..] + [v];
      WellFormedAppend(xs[1..], v);
    }
  }

  lemma {:induction false} WellFormedInsert(ms: seq<Member>, e: Member)
    requires MembersWellFormed(ms) && WellFormed(e.val)
    ensures MembersWellFormed(Insert(ms, e))
  {
    hide WellFormed;
    if ms != [] {
      WellFormedInsert(ms[1..], e);
      assert ([e] + ms)[1..] == ms;
      assert ([ms[0]] + Insert(ms[1..], e))[1..] == Insert(ms[1..], e);
    }
  }

  lemma ScalarWellFormed(s: Text)
    ensures NextToken(s).Tok? && NextToken(s).token.Scalar? ==> WellFormed(NextToken(s).token.v)
    decreases |s|
  {
    hide Keyword, Number, StringToken, Sorted;
    if s != [] && Space(s[0]) {
      ScalarWellFormed(s[1..]);
    } else if s != [] {
      KeywordScalar(s);
      NumberScalar(s);
      StringScalar(s[1..]);
    }
  }

  lemma KeywordScalar(s: Text)
    ensures forall w, v :: Keyword(s, w, v).Tok? && Keyword(s, w, v).token.Scalar? ==> Keyword(s, w, v).token.v == v
  {
  }

  lemma NumberScalar(s: Text)
    requires s != []
    ensures Number(s).Tok? && Number(s).token.Scalar? ==> Number(s).token.v.Int?
  {
  }

  lemma StringScalar(s: Text)
    ensures StringToken(s).Tok? && StringToken(s).token.Scalar? ==> StringToken(s).token.v.Str?
  {
  }

  /** Whatever the text, a parsed object has its members in key order, each key once. */
  lemma {:induction false} ParsedWellFormed(s: Text)
    ensures ParseValue(s).Done? ==> WellFormed(ParseValue(s).value)
    decreases |s|, 0
  {
    hide NextToken, ParseElems, ParseMembers, WellFormed;
    ScalarWellFormed(s);
    var t := NextToken(s);
    if t.Tok? && t.token == LCB {
      MembersParsedWellFormed(t.rest, []);
    } else if t.Tok? && t.token == LB {
      ElemsParsedWellFormed(t.rest, []);
    }
  }

  lemma {:induction false} ElemsParsedWellFormed(s: Text, acc: seq<Value>)
    requires AllWellFormed(acc)
    ensures ParseElems(s, acc).Done? ==> WellFormed(ParseElems(s, acc).value)
    decreases |s|, 1
  {
    hide NextToken, ParseValue;
    ParsedWellFormed(s);
    var p := ParseValue(s);
    if p.Done? {
      WellFormedAppend(acc, p.value);
      var n := NextToken(p.rest);
      if n.Tok? && n.token == Comma { ElemsParsedWellFormed(n.rest, acc + [p.value]); }
    }
  }

  lemma {:induction false} MembersParsedWellFormed(s: Text, acc: seq<Member>)
    requires MembersWellFormed(acc) && Sorted(acc)
    ensures ParseMembers(s, acc).Done? ==> WellFormed(ParseMembers(s, acc).value)
    decreases |s|, 1
  {
    hide NextToken, ParseValue, ParseKey, Unescape, Insert, Sorted;
    var k := ParseKey(s);
    if k.Done? {
      ParsedWellFormed(k.rest);
      var p, u := ParseValue(k.rest), Unescape(k.value.s);
      if p.Done? && u.Ok? {
        var e := Member(u.value, p.value);
        WellFormedInsert(acc, e);
        InsertRefines(acc, e, e.key);
        var n := NextToken(p.rest);
        if n.Tok? && n.token == Comma { MembersParsedWellFormed(n.rest, Insert(acc, e)); }
      }
    }
  }
}
