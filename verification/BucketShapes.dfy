/** The pages of a hash bucket as bare trees: each as a walk meets it, which is the loaded copy if
    there is one, and as the file has it. What the operations of the database do to a bucket is
    computed here without files, links, slots and loading (librdb/src/rdb.cpp). */
module BucketShapes {
  import opened BareTree

  datatype PageShape = PageShape(met: Bare, disk: Bare)

  /** A page that has just been written. */
  function Written(b: Bare): (s: PageShape) { PageShape(b, b) }

  /** A new rank goes to the first page with room, or to a new page at the end. */
  function PutShape(b: seq<PageShape>, r: nat, capacity: nat): (u: seq<PageShape>) {
    if b == [] then [Written(BarePut(Tip, r))]
    else if BareSize(b[0].met) < capacity then [Written(BarePut(b[0].met, r))] + b[1..]
    else [b[0]] + PutShape(b[1..], r, capacity)
  }

  /** A removal tries page after page; those it passes are not written, the one that has the rank is
      written, or leaves the bucket with its last rank. */
  function RemoveShape(b: seq<PageShape>, r: nat): (u: seq<PageShape>) {
    if b == [] then []
    else
      var t := BareRemove(b[0].met, r);
      if !HasRank(b[0].met, r) then [PageShape(t, b[0].disk)] + RemoveShape(b[1..], r)
      else if t == Tip then b[1..]
      else [Written(t)] + b[1..]
  }

  /** The record of the rank, in the page that has it, has two children. */
  predicate MeetsTwo(b: seq<PageShape>, r: nat) {
    b != [] && if HasRank(b[0].met, r) then BareTwo(b[0].met, r) else MeetsTwo(b[1..], r)
  }

  /** Nothing is loaded: a walk meets the pages of the file. */
  function Reloaded(b: seq<PageShape>): (u: seq<PageShape>)
    ensures |u| == |b| && forall i :: 0 <= i < |b| ==> u[i] == Written(b[i].disk)
  {
    seq(|b|, i requires 0 <= i < |b| => Written(b[i].disk))
  }

  // ---------- the same by position ----------

  lemma {:induction false} PutAt(b: seq<PageShape>, r: nat, capacity: nat, i: nat)
    requires i <= |b| && forall j :: 0 <= j < i ==> BareSize(b[j].met) >= capacity
    requires i < |b| ==> BareSize(b[i].met) < capacity
    ensures i < |b| ==> PutShape(b, r, capacity) == b[i := Written(BarePut(b[i].met, r))]
    ensures i == |b| ==> PutShape(b, r, capacity) == b + [Written(BarePut(Tip, r))]
  {
    hide BareSize, BarePut;
    if i > 0 {
      var rest := b[1..];
      assert forall j :: 0 <= j < i - 1 ==> rest[j] == b[j + 1];
      PutAt(rest, r, capacity, i - 1);
      assert [b[0]] + rest == b;
    }
  }

  /** The pages a removal has passed. */
  function Passed(b: seq<PageShape>, r: nat): (u: seq<PageShape>)
    ensures |u| == |b| && forall j :: 0 <= j < |b| ==> u[j] == PageShape(BareRemove(b[j].met, r), b[j].disk)
  {
    seq(|b|, j requires 0 <= j < |b| => PageShape(BareRemove(b[j].met, r), b[j].disk))
  }

  lemma Assembled(b: seq<PageShape>, u: seq<PageShape>, n: nat, r: nat, x: PageShape)
    requires |u| == |b| && n < |b| && u[n] == x
    requires forall i :: n < i < |b| ==> u[i] == b[i]
    requires forall i :: 0 <= i < n ==> u[i] == PageShape(BareRemove(b[i].met, r), b[i].disk)
    ensures u == Passed(b[..n], r) + [x] + b[n + 1..] && u[..n] + u[n + 1..] == Passed(b[..n], r) + b[n + 1..]
  {
    hide BareRemove;
    assert u[..n] == Passed(b[..n], r) && u[n + 1..] == b[n + 1..];
    assert u == u[..n] + [u[n]] + u[n + 1..];
  }

  lemma {:induction false} RemoveAt(b: seq<PageShape>, r: nat, i: nat)
    requires i < |b| && HasRank(b[i].met, r) && forall j :: 0 <= j < i ==> !HasRank(b[j].met, r)
    ensures var t := BareRemove(b[i].met, r);
      RemoveShape(b, r) == Passed(b[..i], r) + (if t == Tip then [] else [Written(t)]) + b[i + 1..]
    ensures MeetsTwo(b, r) <==> BareTwo(b[i].met, r)
  {
    hide HasRank, BareRemove, Passed, RemoveShape;
    if i == 0 {
      RemoveFirst(b, r);
    } else {
      var rest := b[1..];
      assert forall j :: 0 <= j < i ==> rest[j] == b[j + 1];
      RemoveAt(rest, r, i - 1);
      RemoveLater(b, r);
      PassedFirst(b, r, i);
      assert rest[i..] == b[i + 1..];
    }
  }

  lemma RemoveFirst(b: seq<PageShape>, r: nat)
    requires b != [] && HasRank(b[0].met, r)
    ensures var t := BareRemove(b[0].met, r);
      RemoveShape(b, r) == Passed(b[..0], r) + (if t == Tip then [] else [Written(t)]) + b[1..]
  {
    hide HasRank, BareRemove;
    assert Passed(b[..0], r) == [];
  }

  lemma RemoveLater(b: seq<PageShape>, r: nat)
    requires b != [] && !HasRank(b[0].met, r)
    ensures RemoveShape(b, r) == [PageShape(BareRemove(b[0].met, r), b[0].disk)] + RemoveShape(b[1..], r)
  {
    hide HasRank, BareRemove;
  }

  lemma PassedFirst(b: seq<PageShape>, r: nat, i: nat)
    requires 0 < i <= |b|
    ensures Passed(b[..i], r) == [PageShape(BareRemove(b[0].met, r), b[0].disk)] + Passed(b[1..][..i - 1], r)
  {
    hide BareRemove;
  }

  // ---------- loaded pages and the file ----------

  /** Every page is met as the file has it. */
  predicate InStep(b: seq<PageShape>) {
    forall i :: 0 <= i < |b| ==> b[i].met == b[i].disk
  }

  /** Every page before the one with the rank has a settled search path for it. */
  predicate PassesSettled(b: seq<PageShape>, r: nat) {
    b != [] && !HasRank(b[0].met, r) ==> BareSettled(b[0].met, r) && PassesSettled(b[1..], r)
  }

  lemma {:induction false} PutInStep(b: seq<PageShape>, r: nat, capacity: nat)
    requires InStep(b)
    ensures InStep(PutShape(b, r, capacity))
  {
    if b != [] { PutInStep(b[1..], r, capacity); }
  }

  /** A removal leaves loaded pages and file in step exactly when no page it passes turns. */
  lemma {:induction false} RemoveInStep(b: seq<PageShape>, r: nat)
    requires InStep(b) && forall i :: 0 <= i < |b| ==> Current(b[i].met)
    ensures InStep(RemoveShape(b, r)) <==> PassesSettled(b, r)
  {
    hide HasRank, BareRemove, BareSettled, Current;
    if b != [] && !HasRank(b[0].met, r) {
      var rest := b[1..];
      RemoveInStep(rest, r);
      MissedRemove(b[0].met, r);
      var u := RemoveShape(b, r);
      assert u[0] == PageShape(BareRemove(b[0].met, r), b[0].disk) && u[1..] == RemoveShape(rest, r);
      assert InStep(u) <==> u[0].met == u[0].disk && InStep(u[1..]) by {
        assert forall i :: 0 < i < |u| ==> u[i] == u[1..][i - 1];
        assert forall i :: 0 <= i < |u| - 1 ==> u[1..][i] == u[i + 1];
      }
    }
  }
}
