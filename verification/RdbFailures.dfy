/** Runs of requests, on one bucket, that end where the original does not do what it should: a removal
    that fails the slot check, and loaded pages that differ from the file (librdb/src/rdb.cpp). */
module RdbFailures {
  import opened Options
  import opened KeyOrder
  import opened KeyPages
  import opened KeyChains
  import opened ValueStore
  import opened BareTree
  import opened BucketShapes
  import opened Layouts
  import opened PageOps
  import opened PageRuns
  import opened Rdb
  import opened RdbRuns

  /** After the requests, which the original survives, the keys of ranks s lie in the one bucket b. */
  ghost predicate Stands(capacity: nat, qs: seq<Request>, s: set<nat>, b: seq<PageShape>) {
    && Laid(1, capacity, qs).capacity == capacity && Laid(1, capacity, qs).buckets == [b]
    && (forall k :: k in Answers(map[], qs).0 <==> Rank(k) in s)
    && Survives(1, capacity, qs)
  }

  lemma StandsFirst(capacity: nat)
    ensures Stands(capacity, [], {}, [])
  {
  }

  lemma ShortKey(r: nat)
    requires OneByte(r)
    ensures ValidArg(KeyAt(r)) && Hash(KeyAt(r), 1) == 0
  {
    assert KeyAt(0) == [];
    assert KeyAt(r) == [(r - 1) as Byte];
  }

  lemma OneMore(capacity: nat, qs: seq<Request>, q: Request)
    ensures var m := Answers(map[], qs).0; var s := Laid(1, capacity, qs);
      && Answers(map[], qs + [q]).0 == Answer(m, q).0
      && Laid(1, capacity, qs + [q]) == Step(s, m, q)
      && (Survives(1, capacity, qs + [q]) <==> Survives(1, capacity, qs) && !FailsCheck(s, m, q))
  {
    hide Answer, Answers, Laid, Step, FailsCheck;
    var all := qs + [q];
    assert all[..|qs|] == qs && all[..|qs| + 1] == all;
    AnswersStep(1, capacity, all, |qs|);
    assert forall i :: 0 <= i < |qs| ==> all[..i] == qs[..i] && all[i] == qs[i];
  }

  function Setting(r: nat, v: Value): (q: Request) { SetKey(KeyAt(r), v, None) }

  function Removing(r: nat): (q: Request) { RemoveKey(KeyAt(r)) }

  lemma StandsIn(capacity: nat, qs: seq<Request>, s: set<nat>, b: seq<PageShape>, r: nat, v: Value)
    requires Stands(capacity, qs, s, b) && OneByte(r) && r !in s && ValidArg(v)
    ensures Stands(capacity, qs + [Setting(r, v)], s + {r}, PutShape(b, r, capacity))
  {
    hide Answers, Laid, Survives, PutShape, KeyAt;
    ShortKey(r);
    OneMore(capacity, qs, Setting(r, v));
    SameRank(r);
  }

  lemma SameRank(r: nat)
    ensures forall k :: Rank(k) == r <==> k == KeyAt(r)
  {
    hide KeyAt;
    forall k
      ensures Rank(k) == r <==> k == KeyAt(r)
    {
      KeyCmpIsRankOrder(k, KeyAt(r));
    }
  }

  lemma StandsOut(capacity: nat, qs: seq<Request>, s: set<nat>, b: seq<PageShape>, r: nat)
    requires Stands(capacity, qs, s, b) && OneByte(r) && r in s
    ensures MeetsTwo(b, r) ==> !Survives(1, capacity, qs + [Removing(r)])
    ensures !MeetsTwo(b, r) ==> Stands(capacity, qs + [Removing(r)], s - {r}, RemoveShape(b, r))
  {
    hide Answers, Laid, Survives, RemoveShape, MeetsTwo, KeyAt;
    ShortKey(r);
    OneMore(capacity, qs, Removing(r));
    SameRank(r);
  }

  // ---------- runs of one page ----------

  function RequestOf(op: RankOp, v: Value): (q: Request) {
    if op.In? then Setting(op.rank, v) else Removing(op.rank)
  }

  function RequestsOf(rs: seq<RankOp>, v: Value): (qs: seq<Request>) {
    if rs == [] then [] else RequestsOf(rs[..|rs| - 1], v) + [RequestOf(rs[|rs| - 1], v)]
  }

  /** A bucket of one page, or of none. */
  function OnePage(t: Bare): (b: seq<PageShape>) { if t == Tip then [] else [Written(t)] }

  lemma OnePagePut(t: Bare, r: nat, capacity: nat)
    requires BareSize(t) < capacity
    ensures PutShape(OnePage(t), r, capacity) == OnePage(BarePut(t, r))
  {
    PutForks(t, r);
  }

  lemma PutForks(t: Bare, r: nat)
    ensures BarePut(t, r) != Tip
  {
    hide BareBalance;
    if t.Fork? {
      var m := if r < t.rank then Join(BarePut(t.left, r), t.rank, t.right)
               else if r == t.rank then t
               else Join(t.left, t.rank, BarePut(t.right, r));
      if BareBalance(m) != m { TurnedSize(m); }
    }
  }

  lemma OnePageRemove(t: Bare, r: nat)
    requires Finds(t, r) && BareSize(t) > 1
    ensures RemoveShape(OnePage(t), r) == OnePage(BareRemove(t, r)) && BareRemove(t, r) != Tip
    ensures MeetsTwo(OnePage(t), r) <==> BareTwo(t, r)
  {
    RemoveSize(t, r);
  }

  /** A clean run that fits one page does to the bucket what it does to the page, and is survived. */
  lemma {:induction false} RunInBucket(capacity: nat, rs: seq<RankOp>, v: Value)
    requires Fits(rs, capacity) && Clean(rs) && ValidArg(v)
    ensures Stands(capacity, RequestsOf(rs, v), RanksAfter(rs), OnePage(BareRun(rs)))
  {
    hide Stands, PutShape, RemoveShape, MeetsTwo, OnePage, BareSize, BarePut, BareRemove, Finds, BareTwo, Setting,
      Removing;
    if rs == [] {
      StandsFirst(capacity);
      NoPage();
    } else {
      var rest, op := rs[..|rs| - 1], rs[|rs| - 1];
      RunInBucket(capacity, rest, v);
      var qs, s, t := RequestsOf(rest, v), RanksAfter(rest), BareRun(rest);
      if op.In? {
        StandsIn(capacity, qs, s, OnePage(t), op.rank, v);
        OnePagePut(t, op.rank, capacity);
      } else {
        StandsOut(capacity, qs, s, OnePage(t), op.rank);
        OnePageRemove(t, op.rank);
      }
    }
  }

  lemma NoPage()
    ensures OnePage(Tip) == []
  {
  }

  // ---------- the slot check ----------

  function MiddleOfThree(v: Value): (qs: seq<Request>) {
    [Setting(3, v), Setting(2, v), Setting(4, v), Removing(3)]
  }

  /** Three sets in one bucket and the removal of the middle key: the original ends there, with every
      page size that has room for three keys. */
  lemma CheckCanFail(capacity: nat, v: Value)
    requires capacity >= 3 && ValidArg(v)
    ensures !Survives(1, capacity, MiddleOfThree(v))
  {
    hide *;
    ToThree(2);
    TidyNowhere(capacity);
    TidyIn(capacity, [], Tip, {}, 3, One(3), 0);
    TidyIn(capacity, [] + [In(3)], One(3), {} + {3}, 2, Join(One(2), 3, Tip), 1);
    TidyIn(capacity, [] + [In(3)] + [In(2)], Join(One(2), 3, Tip), {} + {3} + {2}, 4, Three(2), 2);
    var rs := [] + [In(3)] + [In(2)] + [In(4)];
    TidyFits(capacity, rs, Three(2), {} + {3} + {2} + {4}, 3);
    RunInBucket(capacity, rs, v);
    MiddleHasTwo();
    MiddleRequests(v);
    StandsOut(capacity, RequestsOf(rs, v), {} + {3} + {2} + {4}, OnePage(Three(2)), 3);
    assert rs == [In(3), In(2), In(4)];
  }

  lemma MiddleHasTwo()
    ensures MeetsTwo(OnePage(Three(2)), 3) && OneByte(3)
  {
    assert HasRank(Three(2), 3) && BareTwo(Three(2), 3);
  }

  lemma MiddleRequests(v: Value)
    ensures RequestsOf([In(3), In(2), In(4)], v) + [Removing(3)] == MiddleOfThree(v)
  {
    hide Setting, Removing;
    assert [In(3), In(2), In(4)][..2] == [In(3), In(2)] && [In(3), In(2)][..1] == [In(3)];
    assert RequestsOf([In(3)], v) == [Setting(3, v)];
    assert RequestsOf([In(3), In(2)], v) == [Setting(3, v), Setting(2, v)];
  }

  // ---------- loaded pages that differ from the file ----------

  /** A page of fifteen records is filled, the next key starts a second page, and is removed again. */
  function OutOfStepRun(v: Value): (qs: seq<Request>) {
    RequestsOf(FillRun(1), v) + [Setting(18, v), Removing(18)]
  }

  lemma SecondPage(t: Bare, r: nat)
    requires t != Tip && BareSize(t) == 15 && !HasRank(t, r)
    ensures PutShape([Written(t)], r, 15) == [Written(t), Written(One(r))]
    ensures RemoveShape([Written(t), Written(One(r))], r) == [PageShape(BareRemove(t, r), t)]
    ensures !MeetsTwo([Written(t), Written(One(r))], r)
  {
    var b := [Written(t), Written(One(r))];
    assert BarePut(Tip, r) == One(r) && BareRemove(One(r), r) == Tip && HasRank(One(r), r) && !BareTwo(One(r), r);
    assert [Written(t)][1..] == [] && b[1..] == [Written(One(r))] && [Written(One(r))][1..] == [];
    assert RemoveShape(b[1..], r) == [];
    assert !MeetsTwo(b[1..], r);
  }

  /** The original survives that run, on the smallest key page it can be set to, and ends with a loaded
      page whose tree is not the one in the file. */
  lemma OutOfStep(v: Value)
    requires ValidArg(v)
    ensures NumOfKeys(MIN_KEY_PAGE_SIZE) == 15
    ensures Survives(1, 15, OutOfStepRun(v)) && !InStep(Laid(1, 15, OutOfStepRun(v)).buckets[0])
  {
    SmallestPage();
    hide *;
    Fills(1, 15);
    TidyFits(15, FillRun(1), Page19(1), LastRanks(1), 15);
    RunInBucket(15, FillRun(1), v);
    LastPage(1);
    LastRanksBelow(1);
    PageSizes(1);
    LastPageRanks(1);
    LastPageUnsettled(1);
    LastPageCurrent(1);
    MissedRemove(Page19(1), 18);
    OutOfStepEnd(RequestsOf(FillRun(1), v), LastRanks(1), Page19(1), v);
    OutOfStepIs(v);
  }

  lemma SmallestPage()
    ensures NumOfKeys(MIN_KEY_PAGE_SIZE) == 15
  {
  }

  lemma OutOfStepIs(v: Value)
    ensures RequestsOf(FillRun(1), v) + [Setting(18, v)] + [Removing(18)] == OutOfStepRun(v)
  {
  }

  lemma OutOfStepEnd(qs: seq<Request>, s: set<nat>, t: Bare, v: Value)
    requires ValidArg(v) && Stands(15, qs, s, OnePage(t)) && 18 !in s
    requires BareSize(t) == 15 && !HasRank(t, 18) && BareRemove(t, 18) != t
    ensures var all := qs + [Setting(18, v)] + [Removing(18)];
      Survives(1, 15, all) && !InStep(Laid(1, 15, all).buckets[0])
  {
    hide Laid, Survives, PutShape, RemoveShape, MeetsTwo, BareRemove, Answers;
    assert t != Tip;
    SecondPage(t, 18);
    StandsIn(15, qs, s, [Written(t)], 18, v);
    var b := [Written(t), Written(One(18))];
    StandsOut(15, qs + [Setting(18, v)], s + {18}, b, 18);
    assert [PageShape(BareRemove(t, 18), t)][0].met != t;
  }

  lemma LastRanksBelow(j: nat)
    ensures j + 17 !in LastRanks(j)
  {
  }

  lemma LastPageCurrent(j: nat)
    requires 1 <= j <= 200
    ensures Current(Page19(j))
  {
    hide *;
    LastPage(j);
    StripCurrent(AfterOps(15, OpsOf(FillRun(j))));
  }
}
