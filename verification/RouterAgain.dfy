/**
 * Registering a path a second time (http/src/server/router.cpp:116-151): when the new handler
 * takes the place of the old one, and when it is never reached.
 */
module RouterAgain {

  import opened Options
  import opened Router

  /** Every element is the stored name of a segment on the way down. */
  predicate Walks<H>(segs: seq<Segment<H>>, elems: seq<string>)
    decreases |elems|
  {
    elems == [] || (var i := Find(segs, elems[0]); i < |segs| && Walks(segs[i].children, elems[1..]))
  }

  /** The way down by stored names. */
  function WalkPath<H>(segs: seq<Segment<H>>, elems: seq<string>): (path: seq<nat>)
    requires Walks(segs, elems)
    ensures |path| == |elems|
    decreases |elems|
  {
    if elems == [] then []
    else var i := Find(segs, elems[0]); [i] + WalkPath(segs[i].children, elems[1..])
  }

  /**
   * What a caller can check before registering a path twice: each element is already the stored name
   * of a segment, or is a literal, or is a pattern whose expression is its own text.
   */
  predicate Reuses<H>(shape: Shaping, segs: seq<Segment<H>>, elems: seq<string>)
    decreases |elems|
  {
    elems == [] ||
    var i := Find(segs, elems[0]);
    if i < |segs| then Reuses(shape, segs[i].children, elems[1..])
    else
      (shape(elems[0]) == Literal || shape(elems[0]) == Pattern(elems[0])) &&
      Reuses<H>(shape, [], elems[1..])
  }

  lemma FindAppended<H>(segs: seq<Segment<H>>, node: Segment<H>, x: string)
    requires Find(segs, x) == |segs|
    ensures Find(segs + [node], x) == if node.name == x then |segs| else |segs| + 1
  {
    var all := segs + [node];
    assert forall j :: 0 <= j < |segs| ==> all[j].name != x;
    assert all[|segs|] == node;
    var i := Find(all, x);
  }

  /** After a registration the same path is found by name exactly when it reuses its segments. */
  lemma {:induction false} WalksAfter<H>(shape: Shaping, segs: seq<Segment<H>>, elems: seq<string>, h: H)
    requires Add(shape, segs, elems, h).ok
    ensures Walks(Add(shape, segs, elems, h).segs, elems) <==> Reuses(shape, segs, elems)
    decreases |elems|
  {
    if elems != [] {
      var i := Find(segs, elems[0]);
      if i < |segs| {
        WalksAfter(shape, segs[i].children, elems[1..], h);
        FindReplaced(segs, i, Add(shape, segs, elems, h).segs[i], elems[0]);
      } else {
        WalksAfter<H>(shape, [], elems[1..], h);
        GrownWalks(shape, segs, elems, h);
      }
    }
  }

  lemma GrownWalks<H>(shape: Shaping, segs: seq<Segment<H>>, elems: seq<string>, h: H)
    requires elems != [] && Find(segs, elems[0]) == |segs| && shape(elems[0]) != Malformed
    ensures Walks(Add(shape, segs, elems, h).segs, elems) <==>
      (shape(elems[0]) == Literal || shape(elems[0]) == Pattern(elems[0])) &&
      Walks(Add(shape, [], elems[1..], h).segs, elems[1..])
  {
    var all := Add(shape, segs, elems, h).segs;
    match shape(elems[0])
    case Literal => FindInFront(segs, all[0], elems[0]);
    case Pattern(regex) => FindAppended(segs, all[|segs|], elems[0]);
  }

  // ---- the same trie but for handlers -------------------------------------------------

  /** Two tries that differ in handlers at most. */
  predicate SameShape<H>(a: seq<Segment<H>>, b: seq<Segment<H>>) {
    |a| == |b| &&
    forall i :: 0 <= i < |a| ==>
      a[i].name == b[i].name && a[i].param == b[i].param && SameShape(a[i].children, b[i].children)
  }

  lemma {:induction false} SameAsSelf<H>(a: seq<Segment<H>>)
    ensures SameShape(a, a)
    decreases a
  {
    forall i | 0 <= i < |a|
      ensures SameShape(a[i].children, a[i].children)
    {
      SameAsSelf(a[i].children);
    }
  }

  lemma {:induction false} SameSearch<H>(rx: Matching, a: seq<Segment<H>>, b: seq<Segment<H>>, q: seq<string>, i: nat)
    requires SameShape(a, b)
    ensures Search(rx, a, q, i) == Search(rx, b, q, i)
    decreases |q|, |a| - i
  {
    if q != [] && i < |a| {
      SameSearch(rx, a[i].children, b[i].children, q[1..], 0);
      SameSearch(rx, a, b, q, i + 1);
    }
  }

  /** A path that is found by name changes a handler and nothing else. */
  lemma {:induction false} WalkedShape<H>(shape: Shaping, segs: seq<Segment<H>>, p: seq<string>, h: H)
    requires Walks(segs, p)
    ensures SameShape(segs, Add(shape, segs, p, h).segs)
    decreases |p|
  {
    SameAsSelf(segs);
    if p != [] {
      var i := Find(segs, p[0]);
      WalkedShape(shape, segs[i].children, p[1..], h);
    }
  }

  /** The handlers after such a registration: only the node at the end of the walk has a new one. */
  lemma {:induction false} WalkedHandlers<H>(shape: Shaping, segs: seq<Segment<H>>, p: seq<string>, h: H,
                                             path: seq<nat>)
    requires Walks(segs, p) && p != [] && NodeAt(segs, path).Some?
    ensures var r := Add(shape, segs, p, h).segs;
      && NodeAt(r, path).Some?
      && NodeAt(r, path).value.handler
        == if path == WalkPath(segs, p) then Some(h) else NodeAt(segs, path).value.handler
    decreases |p|
  {
    var i := Find(segs, p[0]);
    var r := Add(shape, segs, p, h).segs;
    assert path == [path[0]] + path[1..];
    assert |p| == 1 ==> WalkPath(segs[i].children, p[1..]) == [];
    if path[0] == i && |path| > 1 {
      if |p| > 1 { WalkedHandlers(shape, segs[i].children, p[1..], h, path[1..]); }
    }
  }

  /**
   * Registering again a path that reuses its segments replaces the handler: requests that end at its
   * node get the new one, all others what they got before.
   */
  lemma AgainReplaces<H>(shape: Shaping, rx: Matching, segs: seq<Segment<H>>, p: seq<string>, h: H, q: seq<string>)
    requires p != [] && Walks(segs, p)
    ensures Route(rx, Add(shape, segs, p, h).segs, q) ==
      if Search(rx, segs, q, 0) == Some(WalkPath(segs, p)) then Handler(h) else Route(rx, segs, q)
  {
    var r := Add(shape, segs, p, h).segs;
    WalkedShape(shape, segs, p, h);
    SameSearch(rx, segs, r, q, 0);
    SearchSound(rx, segs, q, 0);
    hide Add, Search, Walks;
    var s := Search(rx, segs, q, 0);
    if s.Some? {
      if q == [] {
        MatchLength(rx, segs, q, s.value);
      } else {
        MatchedNode(rx, segs, q, s.value);
        WalkedHandlers(shape, segs, p, h, s.value);
      }
    }
  }

  lemma {:induction false} MatchedNode<H>(rx: Matching, segs: seq<Segment<H>>, q: seq<string>, path: seq<nat>)
    requires q != [] && PathMatches(rx, segs, q, path)
    ensures NodeAt(segs, path).Some?
    decreases |q|
  {
    if |q| > 1 {
      MatchedNode(rx, segs[path[0]].children, q[1..], path[1..]);
      MatchLength(rx, segs[path[0]].children, q[1..], path[1..]);
    } else {
      MatchLength(rx, segs, q, path);
    }
  }

  // ---- the search as a first answer ---------------------------------------------------

  /** The answer below and at one segment. */
  function SeekAt<H>(rx: Matching, s: Segment<H>, q: seq<string>): (r: Answer<H>)
    requires q != []
    decreases |q|, 0, 1
  {
    if !Matches(rx, s, q[0]) then NotFound
    else if |q| == 1 then AnswerAt(s)
    else Seek(rx, s.children, q[1..])
  }

  /** The first answer among siblings. */
  function Seek<H>(rx: Matching, segs: seq<Segment<H>>, q: seq<string>): (r: Answer<H>)
    requires q != []
    decreases |q|, |segs| + 1, 0
  {
    if segs == [] then NotFound
    else
      var r := SeekAt(rx, segs[0], q);
      if r != NotFound then r else Seek(rx, segs[1..], q)
  }

  lemma {:induction false} SeekFrom<H>(rx: Matching, segs: seq<Segment<H>>, q: seq<string>, i: nat)
    requires q != [] && i <= |segs|
    ensures Seek(rx, segs[i..], q) ==
      var p := Search(rx, segs, q, i);
      if p.None? then NotFound
      else if NodeAt(segs, p.value).None? then NotImplemented
      else AnswerAt(NodeAt(segs, p.value).value)
    decreases |q|, |segs| - i
  {
    if i < |segs| {
      assert segs[i..][0] == segs[i] && segs[i..][1..] == segs[i + 1..];
      SeekFrom(rx, segs, q, i + 1);
      if |q| > 1 {
        SeekFrom(rx, segs[i].children, q[1..], 0);
        assert segs[i].children[0..] == segs[i].children;
      }
      var sub := Search(rx, segs[i].children, q[1..], 0);
      if Matches(rx, segs[i], q[0]) && sub.Some? {
        SearchSound(rx, segs[i].children, q[1..], 0);
        MatchLength(rx, segs[i].children, q[1..], sub.value);
        assert ([i] + sub.value)[1..] == sub.value;
      }
    }
  }

  lemma RouteIsSeek<H>(rx: Matching, segs: seq<Segment<H>>, q: seq<string>)
    requires q != []
    ensures Route(rx, segs, q) == Seek(rx, segs, q)
  {
    SeekFrom(rx, segs, q, 0);
    assert segs[0..] == segs;
  }

  lemma {:induction false} SeekReplaced<H>(rx: Matching, segs: seq<Segment<H>>, i: nat, node: Segment<H>,
                                           q: seq<string>)
    requires q != [] && i < |segs| && SeekAt(rx, node, q) == SeekAt(rx, segs[i], q)
    ensures Seek(rx, segs[i := node], q) == Seek(rx, segs, q)
    decreases |segs|
  {
    hide SeekAt;
    if i == 0 {
      assert segs[i := node][1..] == segs[1..];
    } else {
      assert segs[i := node][1..] == segs[1..][i - 1 := node];
      SeekReplaced(rx, segs[1..], i - 1, node, q);
    }
  }

  lemma {:induction false} SeekAppended<H>(rx: Matching, segs: seq<Segment<H>>, node: Segment<H>, q: seq<string>)
    requires q != []
    ensures Seek(rx, segs + [node], q) ==
      if Seek(rx, segs, q) != NotFound then Seek(rx, segs, q) else SeekAt(rx, node, q)
    decreases |segs|
  {
    hide SeekAt;
    if segs == [] {
      assert segs + [node] == [node] && [node][1..] == [];
    } else {
      assert (segs + [node])[1..] == segs[1..] + [node];
      SeekAppended(rx, segs[1..], node, q);
    }
  }

  /** Whether there is an answer does not depend on handlers. */
  lemma {:induction false} SameMissing<H>(rx: Matching, a: seq<Segment<H>>, b: seq<Segment<H>>, q: seq<string>)
    requires SameShape(a, b) && q != []
    ensures Seek(rx, a, q) == NotFound <==> Seek(rx, b, q) == NotFound
    decreases |q|, |a|
  {
    if a != [] {
      SameMissing(rx, a[1..], b[1..], q);
      if |q| > 1 { SameMissing(rx, a[0].children, b[0].children, q[1..]); }
    }
  }

  lemma {:induction false} GrownSame<H>(shape: Shaping, p: seq<string>, h: H, h': H)
    ensures SameShape(Add(shape, [], p, h).segs, Add(shape, [], p, h').segs)
    decreases |p|
  {
    if p != [] { GrownSame(shape, p[1..], h, h'); }
  }

  // ---- a registration that is never reached -------------------------------------------

  /** What the second registration makes of the first one's trie. */
  lemma AgainBelow<H>(shape: Shaping, segs: seq<Segment<H>>, p: seq<string>, h: H, h': H)
    requires p != [] && Add(shape, segs, p, h).ok
    ensures var s := Add(shape, segs, p, h).segs; var i := Find(s, p[0]); var r := Add(shape, s, p, h').segs;
      if i < |s| then
        r == s[i := s[i].(children := Add(shape, s[i].children, p[1..], h').segs, handler := Last(p, h', s[i].handler))]
      else
        && shape(p[0]).Pattern? && |s| > 0
        && r == s + [Segment(shape(p[0]).regex, true, Add(shape, [], p[1..], h').segs, Last(p, h', None))]
        && s[|s| - 1] == Segment(shape(p[0]).regex, true, Add(shape, [], p[1..], h).segs, Last(p, h, None))
  {
    var s := Add(shape, segs, p, h).segs;
    var i := Find(segs, p[0]);
    if i < |segs| {
      FindReplaced(segs, i, s[i], p[0]);
    } else if shape(p[0]) == Literal {
      FindInFront(segs, s[0], p[0]);
    }
  }

  /** Where the segment of p's first element ends up after the first registration. */
  lemma FoundAgain<H>(shape: Shaping, segs: seq<Segment<H>>, p: seq<string>, h: H)
    requires p != [] && Add(shape, segs, p, h).ok
    ensures var s := Add(shape, segs, p, h).segs; var i := Find(segs, p[0]); var j := Find(s, p[0]);
      j < |s| ==>
        && s[j].children == Add(shape, if i < |segs| then segs[i].children else [], p[1..], h).segs
        && Add(shape, if i < |segs| then segs[i].children else [], p[1..], h).ok
  {
    var s := Add(shape, segs, p, h).segs;
    var i := Find(segs, p[0]);
    if i < |segs| {
      FindReplaced(segs, i, s[i], p[0]);
    } else if shape(p[0]) == Literal {
      FindInFront(segs, s[0], p[0]);
    } else {
      FindAppended(segs, s[|segs|], p[0]);
    }
  }

  /**
   * Registering again a path that does not reuse its segments changes no answer: the first handler
   * stays and the second is never reached.
   */
  lemma {:induction false} AgainIgnored<H>(
    shape: Shaping, rx: Matching, segs: seq<Segment<H>>, p: seq<string>, h: H, h': H, q: seq<string>)
    requires p != [] && q != [] && Add(shape, segs, p, h).ok && !Reuses(shape, segs, p)
    ensures var s := Add(shape, segs, p, h).segs; Seek(rx, Add(shape, s, p, h').segs, q) == Seek(rx, s, q)
    decreases |p|
  {
    hide Seek, SeekAt, Add, Reuses, Walks;
    var s := Add(shape, segs, p, h).segs;
    var i, j := Find(segs, p[0]), Find(s, p[0]);
    AgainBelow(shape, segs, p, h, h');
    WalksAfter(shape, segs, p, h);
    if j < |s| {
      FoundAgain(shape, segs, p, h);
      var below := if i < |segs| then segs[i].children else [];
      WalksAfter(shape, below, p[1..], h);
      WalksUnfold(s, p);
      if |q| > 1 { AgainIgnored(shape, rx, below, p[1..], h, h', q[1..]); }
      var node := s[j].(children := Add(shape, s[j].children, p[1..], h').segs, handler := Last(p, h', s[j].handler));
      SameBelow(rx, s[j], node, q);
      SeekReplaced(rx, s, j, node, q);
    } else {
      GrownSame(shape, p[1..], h, h');
      var first := s[|s| - 1];
      var node := Segment(first.name, true, Add(shape, [], p[1..], h').segs, Last(p, h', None));
      if |q| > 1 { SameMissing(rx, first.children, node.children, q[1..]); }
      SameMiss(rx, first, node, q);
      SeekAppended(rx, s, node, q);
      assert s == s[..|s| - 1] + [first];
      SeekAppended(rx, s[..|s| - 1], first, q);
    }
  }

  lemma WalksUnfold<H>(s: seq<Segment<H>>, p: seq<string>)
    requires p != []
    ensures Walks(s, p) <==> Find(s, p[0]) < |s| && Walks(s[Find(s, p[0])].children, p[1..])
    ensures |p| == 1 && Find(s, p[0]) < |s| ==> Walks(s, p)
  {
  }

  lemma SameBelow<H>(rx: Matching, a: Segment<H>, b: Segment<H>, q: seq<string>)
    requires q != [] && a.name == b.name && a.param == b.param && a.handler == b.handler
    requires |q| > 1 ==> Seek(rx, a.children, q[1..]) == Seek(rx, b.children, q[1..])
    ensures SeekAt(rx, a, q) == SeekAt(rx, b, q)
  {
  }

  lemma SameMiss<H>(rx: Matching, a: Segment<H>, b: Segment<H>, q: seq<string>)
    requires q != [] && a.name == b.name && a.param == b.param
    requires |q| > 1 ==> (Seek(rx, a.children, q[1..]) == NotFound <==> Seek(rx, b.children, q[1..]) == NotFound)
    ensures SeekAt(rx, a, q) == NotFound <==> SeekAt(rx, b, q) == NotFound
  {
  }

  /**
   * Registering a path twice, for every trie and request: the second handler answers exactly the
   * requests that end at the node of the path, and only if the path reuses its segments.
   */
  lemma RegisteredTwice<H>(
    shape: Shaping, rx: Matching, segs: seq<Segment<H>>, p: seq<string>, h: H, h': H, q: seq<string>)
    requires p != [] && q != [] && Add(shape, segs, p, h).ok
    ensures var s := Add(shape, segs, p, h).segs;
      && (Walks(s, p) <==> Reuses(shape, segs, p))
      && Route(rx, Add(shape, s, p, h').segs, q) ==
           if Walks(s, p) && Search(rx, s, q, 0) == Some(WalkPath(s, p)) then Handler(h') else Route(rx, s, q)
  {
    var s := Add(shape, segs, p, h).segs;
    WalksAfter(shape, segs, p, h);
    if Walks(s, p) {
      AgainReplaces(shape, rx, s, p, h', q);
    } else {
      AgainIgnored(shape, rx, segs, p, h, h', q);
      RouteIsSeek(rx, s, q);
      RouteIsSeek(rx, Add(shape, s, p, h').segs, q);
    }
  }

  /** One pattern registered twice in an empty router: the first handler answers. */
  lemma FirstWins<H>(shape: Shaping, rx: Matching, e: string, regex: string, h: H, h': H, x: string)
    requires shape(e) == Pattern(regex) && regex != e && rx(regex, x)
    ensures var once := Add(shape, [], [e], h).segs;
      Route(rx, Add(shape, once, [e], h').segs, [x]) == Handler(h)
  {
    var once := Add<H>(shape, [], [e], h).segs;
    assert [e][1..] == [] && [x][1..] == [];
    assert Add<H>(shape, [], [], h).segs == [];
    var none: seq<Segment<H>> := [];
    assert once == none + [Segment(regex, true, [], Some(h))];
    assert once == [Segment(regex, true, [], Some(h))];
    RegisteredTwice<H>(shape, rx, [], [e], h, h', [x]);
    assert !Reuses<H>(shape, [], [e]);
    RouteIsSeek(rx, once, [x]);
  }

  // ---- what one route answers ---------------------------------------------------------

  /** An element of a request is one that an element of a route stands for. */
  predicate Accepts(shape: Shaping, rx: Matching, elem: string, x: string) {
    match shape(elem)
    case Literal => x == elem
    case Pattern(regex) => rx(regex, x)
    case Malformed => false
  }

  /** The answer of a route alone: its handler at its full length, none above it, and nothing else. */
  function Alone<H>(shape: Shaping, rx: Matching, p: seq<string>, h: H, q: seq<string>): (r: Answer<H>) {
    if |q| <= |p| && forall i :: 0 <= i < |q| ==> Accepts(shape, rx, p[i], q[i])
    then if |q| == |p| then Handler(h) else NotImplemented
    else NotFound
  }

  lemma AloneStep<H>(shape: Shaping, rx: Matching, p: seq<string>, h: H, q: seq<string>)
    requires p != [] && |q| > 1
    ensures Alone(shape, rx, p, h, q) ==
      if Accepts(shape, rx, p[0], q[0]) then Alone(shape, rx, p[1..], h, q[1..]) else NotFound
  {
    hide Accepts;
    var p', q' := p[1..], q[1..];
    assert |q'| <= |p'| ==> forall i :: 0 <= i < |q'| ==> p'[i] == p[i + 1] && q'[i] == q[i + 1];
    if |q| <= |p| && Accepts(shape, rx, p[0], q[0]) && forall i :: 0 <= i < |q'| ==> Accepts(shape, rx, p'[i], q'[i]) {
      forall i | 0 <= i < |q|
        ensures Accepts(shape, rx, p[i], q[i])
      {
        if i > 0 { assert p[i] == p'[i - 1] && q[i] == q'[i - 1]; }
      }
    }
  }

  /** The branch that a new route grows. */
  lemma {:induction false} BranchAnswers<H>(shape: Shaping, rx: Matching, p: seq<string>, h: H, q: seq<string>)
    requires p != [] && q != [] && Add<H>(shape, [], p, h).ok
    ensures shape(p[0]) != Malformed
    ensures SeekAt(rx, Made(shape, p, h, Add<H>(shape, [], p[1..], h).segs), q) == Alone(shape, rx, p, h, q)
    decreases |p|
  {
    AddMakes<H>(shape, [], p, h);
    if |q| > 1 {
      AloneStep(shape, rx, p, h, q);
      if p[1..] != [] {
        BranchAnswers(shape, rx, p[1..], h, q[1..]);
        AddMakes<H>(shape, [], p[1..], h);
        SeekOne(rx, Made(shape, p[1..], h, Add<H>(shape, [], p[1..][1..], h).segs), q[1..]);
      }
    }
    hide Add, Seek;
  }

  lemma SeekOne<H>(rx: Matching, node: Segment<H>, q: seq<string>)
    requires q != []
    ensures Seek(rx, Pushed([], node), q) == SeekAt(rx, node, q)
  {
    hide SeekAt;
    assert Pushed([], node) == [node] && [node][1..] == [];
  }

  lemma {:induction false} SeekPushed<H>(rx: Matching, segs: seq<Segment<H>>, node: Segment<H>, q: seq<string>)
    requires q != []
    ensures var was, own := Seek(rx, segs, q), SeekAt(rx, node, q);
      Seek(rx, Pushed(segs, node), q) ==
        if node.param then (if was != NotFound then was else own) else (if own != NotFound then own else was)
    decreases |segs|
  {
    hide SeekAt;
    if !node.param {
      assert ([node] + segs)[1..] == segs;
    } else if segs == [] {
      assert segs + [node] == [node] && [node][1..] == [];
    } else {
      assert (segs + [node])[1..] == segs[1..] + [node];
      SeekPushed(rx, segs[1..], node, q);
    }
  }

  /**
   * A route whose first element is new, added to any trie, for every request: a literal first element
   * is tried before what was there, a pattern after it, and the route itself answers the requests of its
   * length whose elements are the literals or match the patterns.
   */
  lemma NewRoute<H>(shape: Shaping, rx: Matching, segs: seq<Segment<H>>, p: seq<string>, h: H, q: seq<string>)
    requires p != [] && q != [] && Find(segs, p[0]) == |segs| && Add(shape, segs, p, h).ok
    ensures var was, own := Route(rx, segs, q), Alone(shape, rx, p, h, q);
      Route(rx, Add(shape, segs, p, h).segs, q) ==
        if shape(p[0]).Pattern? then (if was != NotFound then was else own) else (if own != NotFound then own else was)
  {
    hide Seek, SeekAt, Route, Alone;
    AddMakes(shape, segs, p, h);
    AddMakes<H>(shape, [], p, h);
    BranchAnswers(shape, rx, p, h, q);
    SeekPushed(rx, segs, Made(shape, p, h, Add<H>(shape, [], p[1..], h).segs), q);
    RouteIsSeek(rx, segs, q);
    RouteIsSeek(rx, Add(shape, segs, p, h).segs, q);
  }

  /** A route alone answers exactly the requests it stands for. */
  lemma LoneRoute<H>(shape: Shaping, rx: Matching, p: seq<string>, h: H, q: seq<string>)
    requires p != [] && q != [] && Add<H>(shape, [], p, h).ok
    ensures Route(rx, Add<H>(shape, [], p, h).segs, q) == Alone(shape, rx, p, h, q)
  {
    hide Alone, Add;
    NewRoute<H>(shape, rx, [], p, h, q);
    RouteIsSeek<H>(rx, [], q);
  }
}
