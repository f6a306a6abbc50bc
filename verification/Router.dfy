/**
 * The request router (http/src/server/router.cpp): a trie of path segments, searched with
 * backtracking in child order.
 *
 * Regular-expression matching and the reading of a "{...}" element are parameters.  The
 * trie is a value: walking the links and changing one node is the tree with that node changed.
 */
module Router {

  import opened Options
  import opened PathElements

  /** What the constructor of path_segment makes of an element. */
  datatype Shape = Literal | Pattern(regex: string) | Malformed

  datatype Segment<H> = Segment(name: string, param: bool, children: seq<Segment<H>>, handler: Option<H>)

  type Shaping = string -> Shape

  /** regex_match: expression first, then the element. */
  type Matching = (string, string) -> bool

  predicate Matches<H>(rx: Matching, seg: Segment<H>, elem: string) {
    if seg.param then rx(seg.name, elem) else elem == seg.name
  }

  // ---- splitting a path ---------------------------------------------------------------

  /** router::split. */
  method SplitPath(path: string) returns (elements: seq<string>)
    ensures elements == Split(path) && AllElements(elements)
  {
    SplitElements(path);
    hide Split, Run, AllElements;
    elements := [];
    var i: nat := 0;
    assert path[0..] == path;
    while i < |path|
      invariant i <= |path| && elements + Split(path[i..]) == Split(path)
    {
      var elem := "";
      while i < |path| && path[i] == '/'
        invariant i <= |path| && elements + Split(path[i..]) == Split(path)
      {
        SkipSlash(path, i);
        i := i + 1;
      }
      ghost var start := i;
      while i < |path| && path[i] != '/'
        invariant start <= i <= |path| && elem == path[start..i]
        invariant Run(path[start..]) == i - start + Run(path[i..])
      {
        RunStep(path, i);
        assert path[start..i] + [path[i]] == path[start..i + 1];
        elem := elem + [path[i]];
        i := i + 1;
      }
      RunStops(path, i);
      if elem != "" {
        TakeElement(path, start, i);
        assert elements + ([elem] + Split(path[i..])) == elements + [elem] + Split(path[i..]);
        elements := elements + [elem];
      }
    }
    NothingLeft(path);
  }

  // ---- search -------------------------------------------------------------------------

  /** A root-to-node path, as child indices, whose segments match all elements. */
  predicate PathMatches<H>(rx: Matching, segs: seq<Segment<H>>, elems: seq<string>, path: seq<nat>)
    decreases |elems|
  {
    if elems == [] then path == []
    else
      path != [] && path[0] < |segs| && Matches(rx, segs[path[0]], elems[0]) &&
      PathMatches(rx, segs[path[0]].children, elems[1..], path[1..])
  }

  predicate NotAfter(p: seq<nat>, q: seq<nat>) {
    if p == [] then true
    else if q == [] then false
    else p[0] < q[0] || (p[0] == q[0] && NotAfter(p[1..], q[1..]))
  }

  /** The search from child i on. */
  function Search<H>(rx: Matching, segs: seq<Segment<H>>, elems: seq<string>, i: nat): (r: Option<seq<nat>>)
    decreases |elems|, |segs| - i
  {
    if elems == [] then Some([])
    else if i >= |segs| then None
    else
      var sub := if Matches(rx, segs[i], elems[0]) then Search(rx, segs[i].children, elems[1..], 0) else None;
      if sub.Some? then Some([i] + sub.value) else Search(rx, segs, elems, i + 1)
  }

  /** A found path matches, and no matching path comes before it in child order. */
  lemma {:induction false} SearchSound<H>(rx: Matching, segs: seq<Segment<H>>, elems: seq<string>, i: nat)
    ensures var r := Search(rx, segs, elems, i);
      r.Some? ==> PathMatches(rx, segs, elems, r.value) && (elems != [] ==> i <= r.value[0])
    decreases |elems|, |segs| - i
  {
    if elems != [] && i < |segs| {
      SearchSound(rx, segs[i].children, elems[1..], 0);
      SearchSound(rx, segs, elems, i + 1);
      var sub := Search(rx, segs[i].children, elems[1..], 0);
      if Matches(rx, segs[i], elems[0]) && sub.Some? { assert ([i] + sub.value)[1..] == sub.value; }
    }
  }

  lemma {:induction false} SearchFirst<H>(
    rx: Matching, segs: seq<Segment<H>>, elems: seq<string>, i: nat, q: seq<nat>)
    requires PathMatches(rx, segs, elems, q) && (elems != [] ==> i <= q[0])
    ensures Search(rx, segs, elems, i).Some? && NotAfter(Search(rx, segs, elems, i).value, q)
    decreases |elems|, |segs| - i
  {
    if elems != [] {
      SearchSound(rx, segs, elems, i + 1);
      var sub := Search(rx, segs[i].children, elems[1..], 0);
      if Matches(rx, segs[i], elems[0]) && sub.Some? { assert ([i] + sub.value)[1..] == sub.value; }
      if i == q[0] {
        SearchFirst(rx, segs[i].children, elems[1..], 0, q[1..]);
      } else {
        SearchFirst(rx, segs, elems, i + 1, q);
      }
    }
  }

  /** The node at the end of a path; None for the empty path. */
  function NodeAt<H>(segs: seq<Segment<H>>, path: seq<nat>): (r: Option<Segment<H>>)
    decreases |path|
  {
    if path == [] || path[0] >= |segs| then None
    else if |path| == 1 then Some(segs[path[0]])
    else NodeAt(segs[path[0]].children, path[1..])
  }

  /**
   * router::handle, the search: it fails exactly when no path matches, and otherwise ends
   * at the node of the first matching path in child order.
   */
  method Handle<H>(rx: Matching, segs: seq<Segment<H>>, elems: seq<string>)
    returns (ok: bool, seg: Option<Segment<H>>, ghost path: seq<nat>)
    ensures ok <==> exists q :: PathMatches(rx, segs, elems, q)
    ensures ok ==> PathMatches(rx, segs, elems, path) && seg == NodeAt(segs, path)
    ensures ok ==> forall q :: PathMatches(rx, segs, elems, q) ==> NotAfter(path, q)
    decreases |elems|
  {
    if elems == [] {
      assert PathMatches(rx, segs, elems, []);
      assert exists q :: PathMatches(rx, segs, elems, q);
      return true, None, [];
    }
    for i := 0 to |segs|
      invariant Search(rx, segs, elems, 0) == Search(rx, segs, elems, i)
    {
      if Matches(rx, segs[i], elems[0]) {
        var found, node, sub := Handle(rx, segs[i].children, elems[1..]);
        if found {
          path := [i] + sub;
          assert path[1..] == sub;
          assert PathMatches(rx, segs, elems, path);
          ok, seg := true, if elems[1..] == [] then Some(segs[i]) else node;
          FoundIsFirst(rx, segs, elems, i, path);
          assert exists q :: PathMatches(rx, segs, elems, q);
          return;
        }
        NothingBelow(rx, segs, elems, i);
      }
    }
    forall q | PathMatches(rx, segs, elems, q)
      ensures false
    {
      SearchFirst(rx, segs, elems, 0, q);
    }
    return false, None, [];
  }

  lemma NothingBelow<H>(rx: Matching, segs: seq<Segment<H>>, elems: seq<string>, i: nat)
    requires elems != [] && i < |segs|
    requires !exists q :: PathMatches(rx, segs[i].children, elems[1..], q)
    ensures Search(rx, segs, elems, i) == Search(rx, segs, elems, i + 1)
  {
    SearchSound(rx, segs[i].children, elems[1..], 0);
  }

  lemma FoundIsFirst<H>(rx: Matching, segs: seq<Segment<H>>, elems: seq<string>, i: nat, path: seq<nat>)
    requires elems != [] && i < |segs| && Matches(rx, segs[i], elems[0])
    requires Search(rx, segs, elems, 0) == Search(rx, segs, elems, i)
    requires path != [] && path[0] == i && PathMatches(rx, segs, elems, path)
    requires forall q :: PathMatches(rx, segs[i].children, elems[1..], q) ==> NotAfter(path[1..], q)
    ensures forall q :: PathMatches(rx, segs, elems, q) ==> NotAfter(path, q)
  {
    forall q | PathMatches(rx, segs, elems, q)
      ensures NotAfter(path, q)
    {
      SearchFirst(rx, segs, elems, 0, q);
      SearchSound(rx, segs, elems, i);
    }
  }

  // ---- adding a route -----------------------------------------------------------------

  /** find with exact names: the first child of that name, or the number of children. */
  function Find<H>(segs: seq<Segment<H>>, name: string): (i: nat)
    ensures i <= |segs| && (i < |segs| ==> segs[i].name == name)
    ensures forall j :: 0 <= j < i ==> segs[j].name != name
  {
    if segs == [] || segs[0].name == name then 0 else 1 + Find(segs[1..], name)
  }

  datatype Added<H> = Added(segs: seq<Segment<H>>, ok: bool)

  function Last<H>(elems: seq<string>, h: H, before: Option<H>): (r: Option<H>) {
    if |elems| == 1 then Some(h) else before
  }

  /**
   * router::add: walk down the segments that are there, then grow a branch; a literal goes
   * to the front of its siblings, a pattern to the back.  A malformed element stops the
   * call and leaves what was grown so far.
   */
  function Add<H>(shape: Shaping, segs: seq<Segment<H>>, elems: seq<string>, h: H): (r: Added<H>)
    decreases |elems|
  {
    if elems == [] then Added(segs, true)
    else
      var i := Find(segs, elems[0]);
      if i < |segs| then
        var sub := Add(shape, segs[i].children, elems[1..], h);
        var node := segs[i].(children := sub.segs, handler := Last(elems, h, segs[i].handler));
        Added(segs[i := node], sub.ok)
      else
        var sub := Add(shape, [], elems[1..], h);
        match shape(elems[0])
        case Malformed => Added(segs, false)
        case Literal => Added([Segment(elems[0], false, sub.segs, Last(elems, h, None))] + segs, sub.ok)
        case Pattern(regex) => Added(segs + [Segment(regex, true, sub.segs, Last(elems, h, None))], sub.ok)
  }

  /** Among siblings every literal stands before every pattern, at every level. */
  predicate LiteralsFirst<H>(segs: seq<Segment<H>>) {
    (forall i, j :: 0 <= i < j < |segs| && segs[i].param ==> segs[j].param) &&
    forall i :: 0 <= i < |segs| ==> LiteralsFirst(segs[i].children)
  }

  lemma {:induction false} AddKeepsLiteralsFirst<H>(shape: Shaping, segs: seq<Segment<H>>, elems: seq<string>, h: H)
    requires LiteralsFirst(segs)
    ensures LiteralsFirst(Add(shape, segs, elems, h).segs)
    decreases |elems|
  {
    if elems != [] {
      var i := Find(segs, elems[0]);
      AddKeepsLiteralsFirst(shape, if i < |segs| then segs[i].children else [], elems[1..], h);
    }
  }

  // ---- literal routes are a map -------------------------------------------------------

  /** A trie of literals with distinct names among siblings. */
  predicate LiteralTrie<H>(segs: seq<Segment<H>>) {
    (forall i, j :: 0 <= i < j < |segs| ==> segs[i].name != segs[j].name) &&
    forall i :: 0 <= i < |segs| ==> !segs[i].param && LiteralTrie(segs[i].children)
  }

  /** What a request path leads to: no node, or a node with or without a handler. */
  datatype Answer<H> = NotFound | NotImplemented | Handler(h: H)

  function AnswerAt<H>(node: Segment<H>): (r: Answer<H>) {
    if node.handler.Some? then Handler(node.handler.value) else NotImplemented
  }

  /** The answer the search gives. */
  function Route<H>(rx: Matching, segs: seq<Segment<H>>, elems: seq<string>): (r: Answer<H>) {
    var p := Search(rx, segs, elems, 0);
    if p.None? then NotFound
    else if NodeAt(segs, p.value).None? then NotImplemented
    else AnswerAt(NodeAt(segs, p.value).value)
  }

  /** The same by walking down the names, without backtracking. */
  function Walk<H>(segs: seq<Segment<H>>, elems: seq<string>): (r: Answer<H>)
    requires elems != []
    decreases |elems|
  {
    var i := Find(segs, elems[0]);
    if i == |segs| then NotFound
    else if |elems| == 1 then AnswerAt(segs[i])
    else Walk(segs[i].children, elems[1..])
  }

  lemma {:induction false} SkipTo<H>(rx: Matching, segs: seq<Segment<H>>, elems: seq<string>, i: nat)
    requires LiteralTrie(segs) && elems != [] && i <= Find(segs, elems[0])
    ensures Search(rx, segs, elems, i) == Search(rx, segs, elems, Find(segs, elems[0]))
    decreases |segs| - i
  {
    if i < Find(segs, elems[0]) { SkipTo(rx, segs, elems, i + 1); }
  }

  lemma {:induction false} NothingAfter<H>(rx: Matching, segs: seq<Segment<H>>, elems: seq<string>, i: nat)
    requires LiteralTrie(segs) && elems != [] && Find(segs, elems[0]) < i
    ensures Search(rx, segs, elems, i) == None
    decreases |segs| - i
  {
    if i < |segs| { NothingAfter(rx, segs, elems, i + 1); }
  }

  /** On literals the backtracking search is a plain walk. */
  lemma {:induction false} RouteIsWalk<H>(rx: Matching, segs: seq<Segment<H>>, elems: seq<string>)
    requires LiteralTrie(segs) && elems != []
    ensures Route(rx, segs, elems) == Walk(segs, elems)
    decreases |elems|
  {
    var i := Find(segs, elems[0]);
    SkipTo(rx, segs, elems, 0);
    NothingAfter(rx, segs, elems, i + 1);
    if i < |segs| {
      var sub := Search(rx, segs[i].children, elems[1..], 0);
      if |elems| > 1 { RouteIsWalk(rx, segs[i].children, elems[1..]); }
      SearchSound(rx, segs[i].children, elems[1..], 0);
      if sub.Some? { assert ([i] + sub.value)[1..] == sub.value; }
    }
  }

  predicate AllLiteral(shape: Shaping, elems: seq<string>) {
    forall i :: 0 <= i < |elems| ==> shape(elems[i]) == Literal
  }

  lemma {:induction false} AddKeepsLiteralTrie<H>(shape: Shaping, segs: seq<Segment<H>>, elems: seq<string>, h: H)
    requires LiteralTrie(segs) && AllLiteral(shape, elems)
    ensures LiteralTrie(Add(shape, segs, elems, h).segs) && Add(shape, segs, elems, h).ok
    decreases |elems|
  {
    if elems != [] {
      var i := Find(segs, elems[0]);
      AddKeepsLiteralTrie(shape, if i < |segs| then segs[i].children else [], elems[1..], h);
    }
  }

  lemma {:induction false} FindReplaced<H>(segs: seq<Segment<H>>, i: nat, node: Segment<H>, x: string)
    requires i < |segs| && node.name == segs[i].name
    ensures Find(segs[i := node], x) == Find(segs, x)
  {
    assert forall j :: 0 <= j < |segs| ==> segs[i := node][j].name == segs[j].name;
    var j, k := Find(segs[i := node], x), Find(segs, x);
  }

  lemma FindInFront<H>(segs: seq<Segment<H>>, node: Segment<H>, x: string)
    ensures Find([node] + segs, x) == if node.name == x then 0 else 1 + Find(segs, x)
  {
    assert ([node] + segs)[1..] == segs;
  }

  lemma PrefixTail(q: seq<string>, p: seq<string>)
    requires q != [] && p != []
    ensures Prefix(q, p) <==> q[0] == p[0] && Prefix(q[1..], p[1..])
    ensures Same(q, p) <==> q[0] == p[0] && Same(q[1..], p[1..])
    ensures |p| == 1 ==> (Prefix(q[1..], p[1..]) <==> |q| == 1) && (Same(q[1..], p[1..]) <==> |q| == 1)
    ensures |q| == 1 ==> Prefix(q[1..], p[1..]) && (Same(q[1..], p[1..]) <==> |p| == 1)
  {
    assert q == [q[0]] + q[1..] && p == [p[0]] + p[1..];
  }

  predicate Prefix(q: seq<string>, p: seq<string>) { q <= p }

  predicate Same(q: seq<string>, p: seq<string>) { q == p }

  /** What a route to q answers once p is added, from what it answered before. */
  function Updated<H>(p: seq<string>, h: H, q: seq<string>, before: Answer<H>): (r: Answer<H>) {
    if Same(q, p) then Handler(h)
    else if Prefix(q, p) && before == NotFound then NotImplemented
    else before
  }

  /** The answers after adding route p: p gets the handler, new nodes on the way get none. */
  lemma {:induction false} AddRefines<H>(
    shape: Shaping, segs: seq<Segment<H>>, p: seq<string>, h: H, q: seq<string>)
    requires LiteralTrie(segs) && AllLiteral(shape, p) && p != [] && q != []
    ensures Walk(Add(shape, segs, p, h).segs, q) == Updated(p, h, q, Walk(segs, q))
    decreases |p|
  {
    var i := Find(segs, p[0]);
    var below := if i < |segs| then segs[i].children else [];
    PrefixTail(q, p);
    if |p| > 1 && |q| > 1 { AddRefines(shape, below, p[1..], h, q[1..]); }
    if i < |segs| { AddDown(shape, segs, p, h, q); } else { AddFront(shape, segs, p, h, q); }
  }

  lemma WalkUnfold<H>(segs: seq<Segment<H>>, q: seq<string>)
    requires q != []
    ensures var i := Find(segs, q[0]);
      Walk(segs, q) ==
        if i == |segs| then NotFound
        else if |q| == 1 then AnswerAt(segs[i])
        else Walk(segs[i].children, q[1..])
  {
  }

  lemma AddUnfold<H>(shape: Shaping, segs: seq<Segment<H>>, p: seq<string>, h: H)
    requires p != []
    ensures var i := Find(segs, p[0]);
      i < |segs| ==>
        var sub := Add(shape, segs[i].children, p[1..], h).segs;
        Add(shape, segs, p, h).segs
          == segs[i := segs[i].(children := sub, handler := Last(p, h, segs[i].handler))] &&
        (|p| == 1 ==> sub == segs[i].children)
    ensures Find(segs, p[0]) == |segs| && shape(p[0]) == Literal ==>
      var sub := Add(shape, [], p[1..], h).segs;
      Add(shape, segs, p, h).segs == [Segment(p[0], false, sub, Last(p, h, None))] + segs &&
      (|p| == 1 ==> sub == [])
  {
  }

  lemma AddDown<H>(shape: Shaping, segs: seq<Segment<H>>, p: seq<string>, h: H, q: seq<string>)
    requires p != [] && q != [] && Find(segs, p[0]) < |segs|
    requires |p| > 1 && |q| > 1 ==>
      var below := segs[Find(segs, p[0])].children;
      Walk(Add(shape, below, p[1..], h).segs, q[1..]) == Updated(p[1..], h, q[1..], Walk(below, q[1..]))
    ensures Walk(Add(shape, segs, p, h).segs, q) == Updated(p, h, q, Walk(segs, q))
  {
    hide Add, Walk, Find, Same, Prefix, AnswerAt;
    var i := Find(segs, p[0]);
    var sub := Add(shape, segs[i].children, p[1..], h).segs;
    var node := segs[i].(children := sub, handler := Last(p, h, segs[i].handler));
    AddUnfold(shape, segs, p, h);
    PrefixTail(q, p);
    FindReplaced(segs, i, node, q[0]);
    WalkUnfold(segs, q);
    WalkUnfold(segs[i := node], q);
    FoundName(segs, q[0]);
    FoundName(segs, p[0]);
    AnswerOf(segs[i], node);
  }

  lemma AnswerOf<H>(a: Segment<H>, b: Segment<H>)
    ensures AnswerAt(a) != NotFound
    ensures a.handler == b.handler ==> AnswerAt(a) == AnswerAt(b)
    ensures b.handler.Some? ==> AnswerAt(b) == Handler(b.handler.value)
    ensures b.handler.None? ==> AnswerAt(b) == NotImplemented
  {
  }

  lemma FoundName<H>(segs: seq<Segment<H>>, x: string)
    ensures Find(segs, x) <= |segs| && (Find(segs, x) < |segs| ==> segs[Find(segs, x)].name == x)
  {
  }

  lemma AddFront<H>(shape: Shaping, segs: seq<Segment<H>>, p: seq<string>, h: H, q: seq<string>)
    requires p != [] && q != [] && Find(segs, p[0]) == |segs| && shape(p[0]) == Literal
    requires |p| > 1 && |q| > 1 ==>
      Walk(Add(shape, [], p[1..], h).segs, q[1..]) == Updated(p[1..], h, q[1..], Walk([], q[1..]))
    ensures Walk(Add(shape, segs, p, h).segs, q) == Updated(p, h, q, Walk(segs, q))
  {
    hide Add, Walk, Find, Same, Prefix, AnswerAt;
    var sub := Add(shape, [], p[1..], h).segs;
    var node := Segment(p[0], false, sub, Last(p, h, None));
    AnswerOf(node, node);
    AddUnfold(shape, segs, p, h);
    PrefixTail(q, p);
    WalkFront(segs, node, q);
    WalkUnfold(segs, q);
    if |q| > 1 { EmptyWalk<H>(q[1..]); }
  }

  lemma WalkFront<H>(segs: seq<Segment<H>>, node: Segment<H>, q: seq<string>)
    requires q != []
    ensures Walk([node] + segs, q) ==
      if q[0] != node.name then Walk(segs, q)
      else if |q| == 1 then AnswerAt(node)
      else Walk(node.children, q[1..])
  {
    hide Walk, Find, AnswerAt;
    FindInFront(segs, node, q[0]);
    WalkUnfold(segs, q);
    WalkUnfold([node] + segs, q);
    FoundName(segs, q[0]);
    var j := Find(segs, q[0]);
    if j < |segs| { assert ([node] + segs)[1 + j] == segs[j]; }
  }

  lemma EmptyWalk<H>(q: seq<string>)
    requires q != []
    ensures Walk<H>([], q) == NotFound
  {
  }

  // ---- the router object --------------------------------------------------------------

  datatype Registration<H> = Registration(path: string, h: H)

  /** The handler a map from split paths would hold after these registrations. */
  function LastAdded<H>(regs: seq<Registration<H>>, q: seq<string>): (r: Option<H>) {
    if regs == [] then None
    else
      var last := regs[|regs| - 1];
      if Split(last.path) == q then Some(last.h) else LastAdded(regs[..|regs| - 1], q)
  }

  ghost predicate LiteralRun<H>(shape: Shaping, regs: seq<Registration<H>>) {
    forall i :: 0 <= i < |regs| ==> AllLiteral(shape, Split(regs[i].path))
  }

  function AddAll<H>(shape: Shaping, regs: seq<Registration<H>>): (segs: seq<Segment<H>>) {
    if regs == [] then []
    else Add(shape, AddAll(shape, regs[..|regs| - 1]), Split(regs[|regs| - 1].path), regs[|regs| - 1].h).segs
  }

  /**
   * After any run of registrations of literal routes a request is answered by the handler
   * registered last for its elements, and by no handler when there is none.
   */
  lemma {:induction false} LiteralRoutesAreAMap<H>(
    shape: Shaping, rx: Matching, regs: seq<Registration<H>>, q: seq<string>)
    requires LiteralRun(shape, regs) && q != []
    ensures LiteralTrie(AddAll(shape, regs))
    ensures var r := Route(rx, AddAll(shape, regs), q);
      match LastAdded(regs, q)
      case Some(h) => r == Handler(h)
      case None => !r.Handler?
    decreases |regs|
  {
    if regs == [] {
      RouteIsWalk<H>(rx, [], q);
    } else {
      var before, last := regs[..|regs| - 1], regs[|regs| - 1];
      LiteralRoutesAreAMap(shape, rx, before, q);
      var segs, p := AddAll(shape, before), Split(last.path);
      RouteIsWalk(rx, segs, q);
      AddKeepsLiteralTrie(shape, segs, p, last.h);
      RouteIsWalk(rx, AddAll(shape, regs), q);
      if p != [] { AddRefines(shape, segs, p, last.h, q); }
    }
  }

  /** A literal child that can serve the request is never passed over for a pattern. */
  lemma LiteralPreferred<H>(rx: Matching, segs: seq<Segment<H>>, elems: seq<string>, q: seq<nat>)
    requires LiteralsFirst(segs) && elems != []
    requires PathMatches(rx, segs, elems, q) && !segs[q[0]].param
    ensures var r := Search(rx, segs, elems, 0);
      r.Some? && r.value != [] && r.value[0] < |segs| && !segs[r.value[0]].param
  {
    SearchFirst(rx, segs, elems, 0, q);
    SearchSound(rx, segs, elems, 0);
  }

  lemma FoundMeansMatch<H>(rx: Matching, segs: seq<Segment<H>>, elems: seq<string>)
    ensures Search(rx, segs, elems, 0).Some? ==> exists q :: PathMatches(rx, segs, elems, q)
  {
    SearchSound(rx, segs, elems, 0);
  }

  lemma {:induction false} FirstIsUnique(p: seq<nat>, q: seq<nat>)
    requires |p| == |q| && NotAfter(p, q) && NotAfter(q, p)
    ensures p == q
  {
    if p != [] { FirstIsUnique(p[1..], q[1..]); }
  }

  lemma {:induction false} MatchLength<H>(rx: Matching, segs: seq<Segment<H>>, elems: seq<string>, q: seq<nat>)
    requires PathMatches(rx, segs, elems, q)
    ensures |q| == |elems|
    decreases |elems|
  {
    if elems != [] { MatchLength(rx, segs[q[0]].children, elems[1..], q[1..]); }
  }

  // ---- the loops of add ---------------------------------------------------------------

  /** A list of siblings and the one the walk went down through. */
  datatype Crumb<H> = Crumb(segs: seq<Segment<H>>, at: nat)

  predicate CrumbsOk<H>(crumbs: seq<Crumb<H>>) {
    forall i :: 0 <= i < |crumbs| ==> crumbs[i].at < |crumbs[i].segs|
  }

  /** The trie above a changed list of siblings. */
  function Hang<H>(crumbs: seq<Crumb<H>>, elems: seq<string>, h: H, sub: seq<Segment<H>>): (r: seq<Segment<H>>)
    requires |crumbs| <= |elems| && CrumbsOk(crumbs)
    decreases |crumbs|
  {
    if crumbs == [] then sub
    else
      var c := crumbs[0];
      var node := c.segs[c.at];
      c.segs[c.at := node.(children := Hang(crumbs[1..], elems[1..], h, sub), handler := Last(elems, h, node.handler))]
  }

  lemma {:induction false} HangDeeper<H>(crumbs: seq<Crumb<H>>, c: Crumb<H>, elems: seq<string>, h: H,
                                         sub: seq<Segment<H>>)
    requires |crumbs| < |elems| && CrumbsOk(crumbs) && c.at < |c.segs|
    ensures CrumbsOk(crumbs + [c])
    ensures Hang(crumbs + [c], elems, h, sub) == Hang(crumbs, elems, h, Hang([c], elems[|crumbs|..], h, sub))
    decreases |crumbs|
  {
    if crumbs == [] {
      assert crumbs + [c] == [c] && elems[0..] == elems;
    } else {
      assert (crumbs + [c])[1..] == crumbs[1..] + [c];
      assert elems[1..][|crumbs| - 1..] == elems[|crumbs|..];
      HangDeeper(crumbs[1..], c, elems[1..], h, sub);
    }
  }

  /** find, without matching expressions. */
  method FindIn<H>(segs: seq<Segment<H>>, name: string) returns (i: nat)
    ensures i == Find(segs, name)
  {
    i := 0;
    while i < |segs| && segs[i].name != name
      invariant i <= |segs| && forall j :: 0 <= j < i ==> segs[j].name != name
    {
      i := i + 1;
    }
  }

  /** What adding to the trie comes to at the point the walk has reached. */
  ghost predicate Reached<H>(
    shape: Shaping, root: seq<Segment<H>>, elems: seq<string>, h: H, crumbs: seq<Crumb<H>>, segs: seq<Segment<H>>)
  {
    && |crumbs| <= |elems| && CrumbsOk(crumbs)
    && var rest := Add(shape, segs, elems[|crumbs|..], h);
      Add(shape, root, elems, h) == Added(Hang(crumbs, elems, h, rest.segs), rest.ok)
  }

  lemma {:induction false} ReachedDeeper<H>(
    shape: Shaping, root: seq<Segment<H>>, elems: seq<string>, h: H, crumbs: seq<Crumb<H>>, segs: seq<Segment<H>>)
    requires Reached(shape, root, elems, h, crumbs, segs) && |crumbs| < |elems|
    requires Find(segs, elems[|crumbs|]) < |segs|
    ensures var i := Find(segs, elems[|crumbs|]);
      Reached(shape, root, elems, h, crumbs + [Crumb(segs, i)], segs[i].children)
  {
    var n := |crumbs|;
    var i := Find(segs, elems[n]);
    var tail := elems[n..];
    assert tail[0] == elems[n] && tail[1..] == elems[n + 1..];
    var sub := Add(shape, segs[i].children, tail[1..], h).segs;
    HangDeeper(crumbs, Crumb(segs, i), elems, h, sub);
    assert [Crumb(segs, i)][1..] == [];
  }

  /** The first loop of add: down the segments that are there. */
  method WalkDown<H>(shape: Shaping, root: seq<Segment<H>>, elems: seq<string>, h: H)
    returns (crumbs: seq<Crumb<H>>, segs: seq<Segment<H>>)
    ensures Reached(shape, root, elems, h, crumbs, segs)
    ensures |crumbs| < |elems| ==> Find(segs, elems[|crumbs|]) == |segs|
  {
    crumbs, segs := [], root;
    assert elems[0..] == elems;
    while |crumbs| < |elems|
      invariant Reached(shape, root, elems, h, crumbs, segs)
      decreases |elems| - |crumbs|
    {
      hide Reached;
      var i := FindIn(segs, elems[|crumbs|]);
      if i == |segs| { return; }
      ReachedDeeper(shape, root, elems, h, crumbs, segs);
      crumbs, segs := crumbs + [Crumb(segs, i)], segs[i].children;
    }
  }

  /** The segment an element makes, above a given list. */
  function Made<H>(shape: Shaping, elems: seq<string>, h: H, below: seq<Segment<H>>): (s: Segment<H>)
    requires elems != [] && shape(elems[0]) != Malformed
  {
    if shape(elems[0]).Pattern? then Segment(shape(elems[0]).regex, true, below, Last(elems, h, None))
    else Segment(elems[0], false, below, Last(elems, h, None))
  }

  /** Literals go in front, patterns behind. */
  function Pushed<H>(segs: seq<Segment<H>>, s: Segment<H>): (r: seq<Segment<H>>) {
    if s.param then segs + [s] else [s] + segs
  }

  lemma AddMakes<H>(shape: Shaping, segs: seq<Segment<H>>, elems: seq<string>, h: H)
    requires elems != [] && Find(segs, elems[0]) == |segs|
    ensures shape(elems[0]) == Malformed ==> Add(shape, segs, elems, h) == Added(segs, false)
    ensures shape(elems[0]) != Malformed ==>
      var sub := Add(shape, [], elems[1..], h);
      Add(shape, segs, elems, h) == Added(Pushed(segs, Made(shape, elems, h, sub.segs)), sub.ok)
  {
  }

  /** The segment an element makes before anything is hung below it. */
  function NewSegment<H>(shape: Shaping, elem: string): (s: Segment<H>)
    requires shape(elem) != Malformed
  {
    if shape(elem).Pattern? then Segment(shape(elem).regex, true, [], None) else Segment(elem, false, [], None)
  }

  /** A new segment among its siblings, and the way down through it. */
  function NewCrumb<H>(segs: seq<Segment<H>>, s: Segment<H>): (c: Crumb<H>) {
    Crumb(Pushed(segs, s), if s.param then |segs| else 0)
  }

  lemma {:induction false} ReachedNew<H>(
    shape: Shaping, root: seq<Segment<H>>, elems: seq<string>, h: H, crumbs: seq<Crumb<H>>, segs: seq<Segment<H>>)
    requires Reached(shape, root, elems, h, crumbs, segs) && |crumbs| < |elems|
    requires Find(segs, elems[|crumbs|]) == |segs| && shape(elems[|crumbs|]) != Malformed
    ensures Reached(shape, root, elems, h, crumbs + [NewCrumb(segs, NewSegment(shape, elems[|crumbs|]))], [])
  {
    var n := |crumbs|;
    var tail := elems[n..];
    assert tail[0] == elems[n] && tail[1..] == elems[n + 1..];
    var c := NewCrumb(segs, NewSegment(shape, elems[n]));
    AddMakes(shape, segs, tail, h);
    var sub := Add<H>(shape, [], tail[1..], h).segs;
    HangDeeper(crumbs, c, elems, h, sub);
    assert [c][1..] == [];
    assert Hang([c], tail, h, sub) == Pushed(segs, Made(shape, tail, h, sub));
  }

  /** The second loop of add: from the top down a segment for each element that is left, up to a
      malformed one. */
  method Grow<H>(shape: Shaping, ghost root: seq<Segment<H>>, elems: seq<string>, ghost h: H,
                 walked: seq<Crumb<H>>, siblings: seq<Segment<H>>)
    returns (crumbs: seq<Crumb<H>>, segs: seq<Segment<H>>, ok: bool)
    requires Reached(shape, root, elems, h, walked, siblings)
    requires |walked| < |elems| ==> Find(siblings, elems[|walked|]) == |siblings|
    ensures |crumbs| <= |elems| && CrumbsOk(crumbs)
    ensures Add(shape, root, elems, h) == Added(Hang(crumbs, elems, h, segs), ok)
  {
    crumbs, segs, ok := walked, siblings, true;
    while |crumbs| < |elems|
      invariant Reached(shape, root, elems, h, crumbs, segs) && ok
      invariant |crumbs| < |elems| ==> Find(segs, elems[|crumbs|]) == |segs|
      decreases |elems| - |crumbs|
    {
      var elem := elems[|crumbs|];
      if shape(elem) == Malformed {
        AddMakes(shape, segs, elems[|crumbs|..], h);
        ok := false;
        return;
      }
      ReachedNew(shape, root, elems, h, crumbs, segs);
      crumbs, segs := crumbs + [NewCrumb(segs, NewSegment(shape, elem))], [];
    }
  }

  /** The changed lists, from the deepest up. */
  method Rehang<H>(crumbs: seq<Crumb<H>>, elems: seq<string>, h: H, sub: seq<Segment<H>>) returns (r: seq<Segment<H>>)
    requires |crumbs| <= |elems| && CrumbsOk(crumbs)
    ensures r == Hang(crumbs, elems, h, sub)
  {
    r := sub;
    var m := |crumbs|;
    assert elems[0..] == elems && crumbs[0..] == crumbs;
    while m > 0
      invariant 0 <= m <= |crumbs| && r == Hang(crumbs[m..], elems[m..], h, sub)
    {
      m := m - 1;
      assert crumbs[m..][1..] == crumbs[m + 1..] && elems[m..][1..] == elems[m + 1..];
      var c := crumbs[m];
      r := c.segs[c.at := c.segs[c.at].(children := r, handler := Last(elems[m..], h, c.segs[c.at].handler))];
    }
  }

  class Routes<H(0)> {
    var root: seq<Segment<H>>

    constructor ()
      ensures root == []
    {
      root := [];
    }

    /** router::add; false stands for the exception on a malformed element. */
    method Register(shape: Shaping, path: string, h: H) returns (ok: bool)
      requires LiteralsFirst(root)
      modifies this
      ensures Added(root, ok) == Add(shape, old(root), Split(path), h)
      ensures LiteralsFirst(root)
    {
      var elements := SplitPath(path);
      AddKeepsLiteralsFirst(shape, root, elements, h);
      var crumbs, segs := WalkDown(shape, root, elements, h);
      crumbs, segs, ok := Grow(shape, root, elements, h, crumbs, segs);
      root := Rehang(crumbs, elements, h, segs);
    }

    /** router::handle up to the call of the handler. */
    method Request(rx: Matching, path: string) returns (r: Answer<H>)
      ensures r == Route(rx, root, Split(path))
    {
      var elements := SplitPath(path);
      var ok, seg, found := Handle(rx, root, elements);
      FoundMeansMatch(rx, root, elements);
      if !ok { return NotFound; }
      SearchFirst(rx, root, elements, 0, found);
      ghost var best := Search(rx, root, elements, 0).value;
      SearchSound(rx, root, elements, 0);
      MatchLength(rx, root, elements, found);
      MatchLength(rx, root, elements, best);
      FirstIsUnique(found, best);
      return if seg.None? then NotImplemented else AnswerAt(seg.value);
    }
  }
}
