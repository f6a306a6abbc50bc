/**
 * URI paths (http/src/common/uri.cpp:494-620): splitting and normalising a decoded path,
 * and merging a relative reference into a base path, compared with sections 5.2.3 and
 * 5.2.4 of RFC 3986.  Percent-encoding is not part of the model.
 */
module UriPath {

  import opened PathElements

  predicate IsDot(s: string) { s == "." || s == ".." }

  predicate DotFree(segs: seq<string>) { forall i :: 0 <= i < |segs| ==> !IsDot(segs[i]) }

  function Pop(segs: seq<string>): (r: seq<string>) { if segs == [] then [] else segs[..|segs| - 1] }

  /** One segment: dots act on an absolute path and are kept in a relative one. */
  function Step(absolute: bool, segs: seq<string>, s: string): (r: seq<string>) {
    if absolute && s == ".." then Pop(segs)
    else if absolute && s == "." then segs
    else segs + [s]
  }

  function Fold(absolute: bool, segs: seq<string>, elems: seq<string>): (r: seq<string>)
    decreases |elems|
  {
    if elems == [] then segs else Fold(absolute, Step(absolute, segs, elems[0]), elems[1..])
  }

  /** The segments between slashes. */
  function Intercalate(segs: seq<string>): (t: string) {
    if segs == [] then "" else if |segs| == 1 then segs[0] else segs[0] + "/" + Intercalate(segs[1..])
  }

  function PathText(segs: seq<string>, slashAtStart: bool, slashAtEnd: bool): (t: string) {
    if segs == [] then ""
    else (if slashAtStart then "/" else "") + Intercalate(segs) + if slashAtEnd then "/" else ""
  }

  // ---- splitting and joining ----------------------------------------------------------

  lemma SplitElement(e: string, rest: string)
    requires IsElement(e) && (rest != "" ==> rest[0] == '/')
    ensures Split(e + rest) == [e] + Split(rest)
  {
    RunOf(e, rest);
    var t := e + rest;
    assert t[0] == e[0] && t[..|e|] == e && t[|e|..] == rest;
  }

  lemma SplitSlash(rest: string)
    ensures Split("/" + rest) == Split(rest)
  {
    assert ("/" + rest)[1..] == rest;
  }

  lemma {:induction false} SplitIntercalated(segs: seq<string>, end: string)
    requires AllElements(segs) && segs != [] && (end == "" || end == "/")
    ensures Split(Intercalate(segs) + end) == segs
  {
    hide Split;
    if |segs| == 1 {
      SplitElement(segs[0], end);
      SlashOnly(end);
    } else {
      var rest := Intercalate(segs[1..]) + end;
      SplitIntercalated(segs[1..], end);
      SplitElement(segs[0], "/" + rest);
      SplitSlash(rest);
      assert Intercalate(segs) + end == segs[0] + ("/" + rest);
    }
  }

  lemma SlashOnly(end: string)
    requires end == "" || end == "/"
    ensures Split(end) == []
  {
  }

  /** Splitting the printed path gives its segments back. */
  lemma SplitPathText(segs: seq<string>, slashAtStart: bool, slashAtEnd: bool)
    requires AllElements(segs)
    ensures Split(PathText(segs, slashAtStart, slashAtEnd)) == segs
  {
    if segs != [] {
      var end := if slashAtEnd then "/" else "";
      hide Split, Intercalate;
      SplitIntercalated(segs, end);
      SplitSlash(Intercalate(segs) + end);
      assert "/" + Intercalate(segs) + end == "/" + (Intercalate(segs) + end);
      assert "" + Intercalate(segs) + end == Intercalate(segs) + end;
    }
  }

  // ---- normalising --------------------------------------------------------------------

  lemma {:induction false} FoldElements(absolute: bool, segs: seq<string>, elems: seq<string>)
    requires AllElements(segs) && AllElements(elems)
    ensures AllElements(Fold(absolute, segs, elems))
    ensures absolute && DotFree(segs) ==> DotFree(Fold(absolute, segs, elems))
    decreases |elems|
  {
    if elems != [] { FoldElements(absolute, Step(absolute, segs, elems[0]), elems[1..]); }
  }

  lemma {:induction false} FoldPlain(absolute: bool, segs: seq<string>, elems: seq<string>)
    requires DotFree(elems) || !absolute
    ensures Fold(absolute, segs, elems) == segs + elems
    decreases |elems|
  {
    if elems != [] {
      FoldPlain(absolute, segs + [elems[0]], elems[1..]);
      assert segs + [elems[0]] + elems[1..] == segs + elems;
    } else {
      assert segs + elems == segs;
    }
  }

  lemma {:induction false} FoldAppend(absolute: bool, segs: seq<string>, a: seq<string>, b: seq<string>)
    ensures Fold(absolute, segs, a + b) == Fold(absolute, Fold(absolute, segs, a), b)
    decreases |a|
  {
    if a == [] {
      assert a + b == b;
    } else {
      assert (a + b)[1..] == a[1..] + b;
      FoldAppend(absolute, Step(absolute, segs, a[0]), a[1..], b);
    }
  }

  /**
   * A normalised absolute path has no dot segment and no empty one, and normalising its
   * printed form changes nothing.
   */
  lemma NormalisedOnce(path: string, slashAtEnd: bool)
    ensures var segs := Fold(true, [], Split(path));
      && AllElements(segs) && DotFree(segs)
      && Fold(true, [], Split(PathText(segs, true, slashAtEnd))) == segs
  {
    hide Split, PathText, Fold;
    var segs := Fold(true, [], Split(path));
    SplitElements(path);
    FoldElements(true, [], Split(path));
    SplitPathText(segs, true, slashAtEnd);
    FoldPlain(true, [], segs);
    assert [] + segs == segs;
  }

  // ---- the path object ----------------------------------------------------------------

  /** segments_to_path. */
  method SegmentsToPath(segments: seq<string>, slashAtStart: bool, slashAtEnd: bool) returns (path: string)
    ensures path == PathText(segments, slashAtStart, slashAtEnd)
  {
    if segments == [] { return ""; }
    path := if slashAtStart then "/" else "";
    ghost var start := path;
    for i := 0 to |segments|
      invariant i == 0 ==> path == start
      invariant i > 0 && i < |segments| ==> path + "/" + Intercalate(segments[i..]) == start + Intercalate(segments)
      invariant i == |segments| ==> path == start + Intercalate(segments)
    {
      ghost var before := path;
      if i > 0 { path := path + "/"; }
      path := path + segments[i];
      NextSegment(segments, i, start, before);
    }
    if slashAtEnd { path := path + "/"; }
  }

  lemma NextSegment(segs: seq<string>, i: nat, start: string, before: string)
    requires i < |segs| && (i == 0 ==> before == start)
    requires i > 0 ==> before + "/" + Intercalate(segs[i..]) == start + Intercalate(segs)
    ensures var path := (if i > 0 then before + "/" else before) + segs[i];
      if i + 1 < |segs| then path + "/" + Intercalate(segs[i + 1..]) == start + Intercalate(segs)
      else path == start + Intercalate(segs)
  {
    assert segs[0..] == segs;
    hide Intercalate;
    IntercalateUnfold(segs, i);
    var path := (if i > 0 then before + "/" else before) + segs[i];
    assert path == (if i > 0 then before + "/" + segs[i] else start + segs[i]);
    if i + 1 < |segs| {
      Associate(if i > 0 then before + "/" else before, segs[i], "/", Intercalate(segs[i + 1..]));
    }
  }

  lemma Associate(a: string, b: string, c: string, d: string)
    ensures a + b + c + d == a + (b + c + d)
  {
  }

  lemma IntercalateUnfold(segs: seq<string>, i: nat)
    requires i < |segs|
    ensures Intercalate(segs[i..]) ==
      if i + 1 == |segs| then segs[i] else segs[i] + "/" + Intercalate(segs[i + 1..])
  {
    assert segs[i..][0] == segs[i];
    if i + 1 < |segs| { assert segs[i..][1..] == segs[i + 1..]; }
  }

  /** The loop of set over the segments of a path. */
  method ReadSegments(p: string, absolute: bool, first: seq<string>) returns (segs: seq<string>)
    ensures segs == Fold(absolute, first, Split(p))
  {
    hide Split, Fold, Step, Run;
    var si: nat := 0;
    segs := first;
    assert p[0..] == p;
    if p != "" && p[0] == '/' {
      si := 1;
      SkipSlash(p, 0);
    }
    while si < |p|
      invariant si <= |p| && Fold(absolute, segs, Split(p[si..])) == Fold(absolute, first, Split(p))
    {
      var ei := si + Run(p[si..]);
      var segment := p[si..ei];
      NextElement(p, si);
      FoldStep(absolute, segs, segment, Split(p[ei..]));
      if segment == ".." {
        if absolute {
          if segs != [] { segs := segs[..|segs| - 1]; }
        } else {
          segs := segs + [segment];
        }
      } else if segment == "." {
        if !absolute { segs := segs + [segment]; }
      } else if segment != "" {
        segs := segs + [segment];
      }
      if ei < |p| {
        SkipSlash(p, ei);
        si := ei + 1;
      } else {
        si := |p|;
      }
    }
    NothingLeft(p);
    FoldNothing(absolute, segs);
  }

  /** The loop of merge over the segments of the relative path. */
  method MergeSegments(base: seq<string>, rel: seq<string>) returns (segs: seq<string>)
    ensures segs == Fold(true, Pop(base), rel)
  {
    hide Fold;
    segs := if base == [] then [] else base[..|base| - 1];
    assert rel[..|rel|] == rel;
    FoldNothing(true, segs);
    for i := 0 to |rel|
      invariant segs == Fold(true, Pop(base), rel[..i])
    {
      FoldOne(true, Pop(base), rel, i);
      if rel[i] == ".." {
        if segs != [] { segs := segs[..|segs| - 1]; }
      } else if rel[i] != "." {
        segs := segs + [rel[i]];
      }
    }
  }

  class Path {
    var segments: seq<string>
    var slashAtStart: bool
    var slashAtEnd: bool
    var component: string

    constructor ()
      ensures segments == [] && !slashAtStart && !slashAtEnd && component == ""
    {
      segments, slashAtStart, slashAtEnd, component := [], false, false, "";
    }

    /** set, on the decoded path. */
    method Set(p: string)
      modifies this
      ensures slashAtStart == (old(slashAtStart) || (p != "" && p[0] == '/'))
      ensures slashAtEnd == (old(slashAtEnd) || (p != "" && p[|p| - 1] == '/'))
      ensures segments == Fold(slashAtStart, old(segments), Split(p))
      ensures component ==
        if segments == [] then old(component) else PathText(segments, slashAtStart, slashAtEnd)
    {
      hide Split, Fold, PathText;
      var absolute := slashAtStart || (p != "" && p[0] == '/');
      var atEnd := slashAtEnd || (p != "" && p[|p| - 1] == '/');
      var segs := ReadSegments(p, absolute, segments);
      var text := component;
      if segs != [] { text := SegmentsToPath(segs, absolute, atEnd); }
      segments, slashAtStart, slashAtEnd, component := segs, absolute, atEnd, text;
    }

    /** merge: the base loses its last segment and takes those of the relative path. */
    method Merge(rel: Path) returns (target: Path)
      requires AllElements(segments) && AllElements(rel.segments)
      requires slashAtStart ==> DotFree(segments)
      ensures fresh(target) && target.segments == Merged(segments, rel.segments, rel.slashAtStart)
      ensures target.slashAtStart ==
        (rel.slashAtStart || (slashAtStart && target.segments != []))
      ensures target.slashAtEnd == (rel.slashAtEnd && (rel.slashAtStart || target.segments != []))
      ensures target.component ==
        if rel.slashAtStart then rel.component
        else PathText(target.segments, slashAtStart, rel.slashAtEnd)
    {
      if rel.slashAtStart {
        target := new Path();
        target.segments, target.component := rel.segments, rel.component;
        target.slashAtStart, target.slashAtEnd := true, rel.slashAtEnd;
        return;
      }
      hide Split, Fold, PathText, AllElements, DotFree;
      var segs := MergeSegments(segments, rel.segments);
      MergedElements(segments, rel.segments);
      target := new Path();
      if segs != [] {
        var path := SegmentsToPath(segs, slashAtStart, rel.slashAtEnd);
        Reread(segs, slashAtStart, rel.slashAtEnd);
        target.Set(path);
      }
    }
  }

  lemma MergedElements(base: seq<string>, rel: seq<string>)
    requires AllElements(base) && AllElements(rel)
    ensures AllElements(Fold(true, Pop(base), rel))
    ensures DotFree(base) ==> DotFree(Fold(true, Pop(base), rel))
  {
    FoldElements(true, Pop(base), rel);
  }

  /** Setting a fresh path to a printed one gives the segments that were printed. */
  lemma Reread(segs: seq<string>, slashAtStart: bool, slashAtEnd: bool)
    requires AllElements(segs) && segs != [] && (slashAtStart ==> DotFree(segs))
    ensures var t := PathText(segs, slashAtStart, slashAtEnd);
      && t != "" && (t[0] == '/' <==> slashAtStart) && (t[|t| - 1] == '/' <==> slashAtEnd)
      && Fold(slashAtStart, [], Split(t)) == segs
  {
    hide Split, Fold, PathText;
    FirstOfText(segs, slashAtStart, slashAtEnd);
    SplitPathText(segs, slashAtStart, slashAtEnd);
    FoldPlain(slashAtStart, [], segs);
    assert [] + segs == segs;
  }

  function Merged(base: seq<string>, rel: seq<string>, relAbsolute: bool): (r: seq<string>) {
    if relAbsolute then rel else Fold(true, Pop(base), rel)
  }

  lemma FoldOne(absolute: bool, base: seq<string>, elems: seq<string>, i: nat)
    requires i < |elems|
    ensures Fold(absolute, base, elems[..i + 1]) == Step(absolute, Fold(absolute, base, elems[..i]), elems[i])
  {
    assert elems[..i + 1] == elems[..i] + [elems[i]];
    FoldAppend(absolute, base, elems[..i], [elems[i]]);
    FoldStep(absolute, Fold(absolute, base, elems[..i]), elems[i], []);
    assert [elems[i]] + [] == [elems[i]];
  }

  lemma FirstOfText(segs: seq<string>, slashAtStart: bool, slashAtEnd: bool)
    requires AllElements(segs) && segs != []
    ensures var t := PathText(segs, slashAtStart, slashAtEnd);
      t != "" && (t[0] == '/' <==> slashAtStart) && (t[|t| - 1] == '/' <==> slashAtEnd)
  {
    assert Intercalate(segs)[0] == segs[0][0];
    LastOfSegments(segs);
  }

  lemma {:induction false} LastOfSegments(segs: seq<string>)
    requires AllElements(segs) && segs != []
    ensures var t := Intercalate(segs); t != "" && t[|t| - 1] != '/'
  {
    if |segs| > 1 {
      LastOfSegments(segs[1..]);
    } else {
      assert segs[0][|segs[0]| - 1] in segs[0];
    }
  }

  lemma NextElement(p: string, si: nat)
    requires si < |p|
    ensures var ei := si + Run(p[si..]);
      Split(p[si..]) == if ei == si then Split(p[ei..]) else [p[si..ei]] + Split(p[ei..])
  {
    if p[si] != '/' { TakeElement(p, si, si + Run(p[si..])); }
  }

  lemma FoldStep(absolute: bool, segs: seq<string>, s: string, rest: seq<string>)
    ensures Fold(absolute, segs, [s] + rest) == Fold(absolute, Step(absolute, segs, s), rest)
    ensures Step(absolute, segs, s) ==
      if absolute && s == ".." then Pop(segs) else if absolute && s == "." then segs else segs + [s]
  {
    assert ([s] + rest)[1..] == rest;
  }

  lemma FoldNothing(absolute: bool, segs: seq<string>)
    ensures Fold(absolute, segs, []) == segs
  {
  }
}
