/**
 * What the queue and the pool do, told from the moves of a run and the places of its threads alone,
 * without the fields: which puts count, which gets take what, which operations a client has gone
 * through, which jobs a worker has run, and when nothing can move (libcom/include/thrdpool.h).
 */
module SyncHistory {

  import opened Options
  import opened SyncQueue

  // ---- puts and gets ------------------------------------------------------------------

  /** The operation that a move carries out under m_lock, if it is the first step of one. */
  function Enters<T>(s: State<T>, m: Move<T>): (op: Option<Op<T>>)
    requires Enabled(s, m.thread, m.event)
  {
    if m.event.Advance? && s.pc[m.thread].Entered? then Some(s.pc[m.thread].op) else None
  }

  predicate Closes<T>(op: Option<Op<T>>) { op.Some? && (op.value.Invalidate? || op.value.Stop?) }

  /** The elements put while nothing had closed the queue, in the order of the run. */
  ghost function PutInRun<T>(s: State<T>, run: seq<Move<T>>, open: bool): (xs: seq<T>)
    requires Legal(s, run)
    decreases |run|
  {
    if run == [] then []
    else
      var op, r := Enters(s, run[0]), Next(s, run[0].thread, run[0].event);
      (if open && op.Some? && op.value.Put? then [op.value.elem] else [])
      + PutInRun(r, run[1..], open && !Closes(op))
  }

  /** Nothing has closed the queue. */
  ghost predicate OpenAfter<T>(s: State<T>, run: seq<Move<T>>, open: bool)
    requires Legal(s, run)
    decreases |run|
  {
    if run == [] then open
    else OpenAfter(Next(s, run[0].thread, run[0].event), run[1..], open && !Closes(Enters(s, run[0])))
  }

  /** What a move returns to a caller of get. */
  function Takes<T>(s: State<T>, m: Move<T>): (x: Option<T>)
    requires Enabled(s, m.thread, m.event)
  {
    var q := Next(s, m.thread, m.event).pc[m.thread];
    if m.event.Advance? && s.pc[m.thread].Taking? && q.Leaving? then q.got else None
  }

  ghost function TakenInRun<T>(s: State<T>, run: seq<Move<T>>): (xs: seq<T>)
    requires Legal(s, run)
    decreases |run|
  {
    if run == [] then []
    else
      (if Takes(s, run[0]).Some? then [Takes(s, run[0]).value] else [])
      + TakenInRun(Next(s, run[0].thread, run[0].event), run[1..])
  }

  lemma StepAccepts<T>(s: State<T>, m: Move<T>)
    requires Enabled(s, m.thread, m.event)
    ensures var r, op := Next(s, m.thread, m.event), Enters(s, m);
      && r.d.accepted == s.d.accepted + (if s.d.valid && op.Some? && op.value.Put? then [op.value.elem] else [])
      && r.d.valid == (s.d.valid && !Closes(op))
  {
    hide Goto, OwnerAfter, Others;
  }

  lemma StepTakes<T>(s: State<T>, m: Move<T>)
    requires Enabled(s, m.thread, m.event)
    ensures var r, x := Next(s, m.thread, m.event), Takes(s, m);
      r.d.delivered == s.d.delivered + if x.Some? then [x.value] else []
  {
    hide OwnerAfter, Others;
  }

  lemma {:induction false} AcceptedIsPut<T>(s: State<T>, run: seq<Move<T>>)
    requires Legal(s, run)
    ensures After(s, run).d.accepted == s.d.accepted + PutInRun(s, run, s.d.valid)
    ensures After(s, run).d.valid == OpenAfter(s, run, s.d.valid)
    decreases |run|
  {
    hide Next, Enabled, Enters;
    if run == [] {
      assert s.d.accepted + [] == s.d.accepted;
    } else {
      var r := Next(s, run[0].thread, run[0].event);
      StepAccepts(s, run[0]);
      AcceptedIsPut(r, run[1..]);
      Joined(s.d.accepted, r.d.accepted, PutInRun(r, run[1..], r.d.valid));
    }
  }

  lemma Joined<T>(a: seq<T>, b: seq<T>, c: seq<T>)
    requires a <= b
    ensures b + c == a + (b[|a|..] + c)
  {
    assert b == a + b[|a|..];
  }

  lemma {:induction false} DeliveredIsTaken<T>(s: State<T>, run: seq<Move<T>>)
    requires Legal(s, run)
    ensures After(s, run).d.delivered == s.d.delivered + TakenInRun(s, run)
    decreases |run|
  {
    hide Next, Enabled, Takes;
    if run == [] {
      assert s.d.delivered + [] == s.d.delivered;
    } else {
      var r := Next(s, run[0].thread, run[0].event);
      StepTakes(s, run[0]);
      DeliveredIsTaken(r, run[1..]);
      Joined(s.d.delivered, r.d.delivered, TakenInRun(r, run[1..]));
    }
  }

  /**
   * First in, first out, over every run: what gets have returned, in order, is a prefix of what puts
   * have brought before the queue was closed, and while it is open the rest is what waits in it.
   */
  lemma FirstInFirstOut<T>(threads: nat, workers: nat, run: seq<Move<T>>)
    requires workers <= threads && Legal(Init<T>(threads, workers), run)
    ensures var i := Init<T>(threads, workers);
      && TakenInRun(i, run) <= PutInRun(i, run, true)
      && (OpenAfter(i, run, true) ==> PutInRun(i, run, true) == TakenInRun(i, run) + After(i, run).d.queue)
  {
    var i := Init<T>(threads, workers);
    QueueSafety(threads, workers, run);
    AcceptedIsPut(i, run);
    DeliveredIsTaken(i, run);
    assert [] + PutInRun(i, run, true) == PutInRun(i, run, true);
    assert [] + TakenInRun(i, run) == TakenInRun(i, run);
  }

  // ---- what a client does -------------------------------------------------------------

  /** The operations a thread has called and not found already done. */
  ghost function Begun<T>(s: State<T>, run: seq<Move<T>>, t: nat): (ops: seq<Op<T>>)
    requires Legal(s, run)
    decreases |run|
  {
    if run == [] then []
    else
      var m, r := run[0], Next(s, run[0].thread, run[0].event);
      (if m.thread == t && m.event.Call? && !r.pc[t].Idle? then [m.event.op] else []) + Begun(r, run[1..], t)
  }

  /** The operations a thread has carried out, or is carrying out, under m_lock. */
  ghost function Performed<T>(s: State<T>, run: seq<Move<T>>, t: nat): (ops: seq<Op<T>>)
    requires Legal(s, run)
    decreases |run|
  {
    if run == [] then []
    else
      var m := run[0];
      (if m.thread == t && Enters(s, m).Some? then [Enters(s, m).value] else [])
      + Performed(Next(s, m.thread, m.event), run[1..], t)
  }

  /** The operation a thread has called and not begun under m_lock. */
  function Pending<T>(p: Pc<T>): (ops: seq<Op<T>>) {
    if p.Locking? || p.Entered? then [p.op] else if p.Stopping? then [Stop] else []
  }

  lemma StepPends<T>(s: State<T>, m: Move<T>, t: nat)
    requires Enabled(s, m.thread, m.event) && Inv(s) && s.workers <= t < |s.pc|
    ensures var r := Next(s, m.thread, m.event);
      var called := if m.thread == t && m.event.Call? && !r.pc[t].Idle? then [m.event.op] else [];
      var entered := if m.thread == t && Enters(s, m).Some? then [Enters(s, m).value] else [];
      Pending(s.pc[t]) + called == entered + Pending(r.pc[t])
  {
    hide Inv, Effect, OwnerAfter;
    ClientHere(s, t);
  }

  lemma ClientHere<T>(s: State<T>, t: nat)
    requires Inv(s) && s.workers <= t < |s.pc|
    ensures ClientPc(s.pc[t])
  {
    hide Count, Covered, History;
    assert RoleOk(s.pc[t], t < s.workers);
  }

  /** A client carries out what it calls, once each and in order. */
  lemma {:induction false} PerformedAsCalled<T>(s: State<T>, run: seq<Move<T>>, t: nat)
    requires Inv(s) && Legal(s, run) && s.workers <= t < |s.pc|
    ensures t < |After(s, run).pc|
    ensures Pending(s.pc[t]) + Begun(s, run, t) == Performed(s, run, t) + Pending(After(s, run).pc[t])
    decreases |run|
  {
    hide Next, Enabled, Enters, Pending, Inv;
    if run == [] {
      assert Pending(s.pc[t]) + [] == [] + Pending(s.pc[t]);
    } else {
      var m := run[0];
      var r := Next(s, m.thread, m.event);
      StepInv(s, m.thread, m.event);
      NextWorkers(s, m.thread, m.event);
      StepPends(s, m, t);
      PerformedAsCalled(r, run[1..], t);
      var called := if m.thread == t && m.event.Call? && !r.pc[t].Idle? then [m.event.op] else [];
      var entered := if m.thread == t && Enters(s, m).Some? then [Enters(s, m).value] else [];
      Chained(Pending(s.pc[t]), called, Begun(r, run[1..], t), entered, Pending(r.pc[t]), Performed(r, run[1..], t),
              Pending(After(s, run).pc[t]));
    }
  }

  lemma Chained<T>(p: seq<T>, a: seq<T>, more: seq<T>, b: seq<T>, q: seq<T>, done: seq<T>, z: seq<T>)
    requires p + a == b + q && q + more == done + z
    ensures p + (a + more) == (b + done) + z
  {
    assert p + (a + more) == (p + a) + more && (b + q) + more == b + (q + more) && b + (done + z) == (b + done) + z;
  }

  // ---- what a worker does -------------------------------------------------------------

  /** What a thread has taken off the queue. */
  ghost function TakenBy<T>(s: State<T>, run: seq<Move<T>>, t: nat): (xs: seq<T>)
    requires Legal(s, run)
    decreases |run|
  {
    if run == [] then []
    else
      var m := run[0];
      (if m.thread == t && Takes(s, m).Some? then [Takes(s, m).value] else [])
      + TakenBy(Next(s, m.thread, m.event), run[1..], t)
  }

  /** The jobs a thread has run. */
  ghost function JobsRun<T>(s: State<T>, run: seq<Move<T>>, t: nat): (xs: seq<T>)
    requires Legal(s, run)
    decreases |run|
  {
    if run == [] then []
    else
      var m := run[0];
      (if m.thread == t && s.pc[t].Running? && m.event.Advance? then [s.pc[t].job] else [])
      + JobsRun(Next(s, m.thread, m.event), run[1..], t)
  }

  /** The job a worker has in hand. */
  function InHand<T>(p: Pc<T>): (xs: seq<T>) {
    if p.Running? then [p.job] else if p.Leaving? && p.got.Some? then [p.got.value] else []
  }

  lemma StepRuns<T>(s: State<T>, m: Move<T>, t: nat)
    requires Enabled(s, m.thread, m.event) && Inv(s) && t < s.workers <= |s.pc|
    ensures var r := Next(s, m.thread, m.event);
      var taken := if m.thread == t && Takes(s, m).Some? then [Takes(s, m).value] else [];
      var ran := if m.thread == t && s.pc[t].Running? && m.event.Advance? then [s.pc[t].job] else [];
      InHand(s.pc[t]) + taken == ran + InHand(r.pc[t])
  {
    hide Inv, Effect, OwnerAfter;
    WorkerHere(s, t);
  }

  lemma WorkerHere<T>(s: State<T>, t: nat)
    requires Inv(s) && t < s.workers
    ensures s.workers <= |s.pc| && WorkerPc(s.pc[t])
  {
    hide Count, Covered, History;
    assert RoleOk(s.pc[t], t < s.workers);
  }

  /** A worker runs every job that it takes, once each and in order. */
  lemma {:induction false} TakenIsRun<T>(s: State<T>, run: seq<Move<T>>, t: nat)
    requires Inv(s) && Legal(s, run) && t < s.workers <= |s.pc|
    ensures t < |After(s, run).pc|
    ensures InHand(s.pc[t]) + TakenBy(s, run, t) == JobsRun(s, run, t) + InHand(After(s, run).pc[t])
    decreases |run|
  {
    hide Next, Enabled, Takes, InHand, Inv;
    if run == [] {
      assert InHand(s.pc[t]) + [] == [] + InHand(s.pc[t]);
    } else {
      var m := run[0];
      var r := Next(s, m.thread, m.event);
      StepInv(s, m.thread, m.event);
      NextWorkers(s, m.thread, m.event);
      StepRuns(s, m, t);
      TakenIsRun(r, run[1..], t);
      var taken := if m.thread == t && Takes(s, m).Some? then [Takes(s, m).value] else [];
      var ran := if m.thread == t && s.pc[t].Running? && m.event.Advance? then [s.pc[t].job] else [];
      Chained(InHand(s.pc[t]), taken, TakenBy(r, run[1..], t), ran, InHand(r.pc[t]), JobsRun(r, run[1..], t),
              InHand(After(s, run).pc[t]));
    }
  }

  /** From the start: the jobs run and the one in hand are what the worker took. */
  lemma JobsAreTaken<T>(threads: nat, workers: nat, run: seq<Move<T>>, t: nat)
    requires t < workers <= threads && Legal(Init<T>(threads, workers), run)
    ensures var i := Init<T>(threads, workers);
      t < |After(i, run).pc| && TakenBy(i, run, t) == JobsRun(i, run, t) + InHand(After(i, run).pc[t])
  {
    var i := Init<T>(threads, workers);
    InitInv<T>(threads, workers);
    TakenIsRun(i, run, t);
    assert [] + TakenBy(i, run, t) == TakenBy(i, run, t);
  }

  /** The same for a client and its operations. */
  lemma CallsArePerformed<T>(threads: nat, workers: nat, run: seq<Move<T>>, t: nat)
    requires workers <= t < threads && Legal(Init<T>(threads, workers), run)
    ensures var i := Init<T>(threads, workers);
      t < |After(i, run).pc| && Begun(i, run, t) == Performed(i, run, t) + Pending(After(i, run).pc[t])
  {
    var i := Init<T>(threads, workers);
    InitInv<T>(threads, workers);
    PerformedAsCalled(i, run, t);
    assert [] + Begun(i, run, t) == Begun(i, run, t);
  }

  // ---- stopping the pool --------------------------------------------------------------

  /** Some thread has gone past setting m_done. */
  ghost predicate StopBegun<T>(s: State<T>, run: seq<Move<T>>)
    requires Legal(s, run)
    decreases |run|
  {
    run != [] &&
    (|| (run[0].event.Advance? && s.pc[run[0].thread].Stopping?)
     || StopBegun(Next(s, run[0].thread, run[0].event), run[1..]))
  }

  /** Some call of stop has joined the workers and returned. */
  ghost predicate StopReturned<T>(s: State<T>, run: seq<Move<T>>)
    requires Legal(s, run)
    decreases |run|
  {
    run != [] &&
    (|| (run[0].event.Advance? && s.pc[run[0].thread].Joining?)
     || StopReturned(Next(s, run[0].thread, run[0].event), run[1..]))
  }

  lemma StepDone<T>(s: State<T>, m: Move<T>)
    requires Enabled(s, m.thread, m.event)
    ensures Next(s, m.thread, m.event).d.done <==> s.d.done || (m.event.Advance? && s.pc[m.thread].Stopping?)
  {
    hide Goto, OwnerAfter, Others;
  }

  /** Only m_done lets a worker out of its loop. */
  lemma StepExits<T>(s: State<T>, m: Move<T>, t: nat)
    requires Enabled(s, m.thread, m.event) && t < |s.pc|
    ensures s.pc[t].Exited? ==> Next(s, m.thread, m.event).pc[t].Exited?
    ensures Next(s, m.thread, m.event).pc[t].Exited? && !s.pc[t].Exited? ==> s.d.done
  {
    hide Effect, OwnerAfter;
  }

  lemma {:induction false} RunExits<T>(s: State<T>, run: seq<Move<T>>, t: nat)
    requires Legal(s, run) && t < |s.pc|
    ensures t < |After(s, run).pc|
    ensures After(s, run).d.done <==> s.d.done || StopBegun(s, run)
    ensures s.pc[t].Exited? ==> After(s, run).pc[t].Exited?
    ensures After(s, run).pc[t].Exited? && !s.pc[t].Exited? ==> s.d.done || StopBegun(s, run)
    decreases |run|
  {
    hide Next, Enabled;
    if run != [] {
      var m := run[0];
      NextWorkers(s, m.thread, m.event);
      StepDone(s, m);
      StepExits(s, m, t);
      RunExits(Next(s, m.thread, m.event), run[1..], t);
    }
  }

  /** A worker leaves its loop only once stop has been called. */
  lemma WorkersStay<T>(threads: nat, workers: nat, run: seq<Move<T>>, t: nat)
    requires t < workers <= threads && Legal(Init<T>(threads, workers), run)
    ensures var i := Init<T>(threads, workers);
      t < |After(i, run).pc| && (After(i, run).pc[t].Exited? ==> StopBegun(i, run))
  {
    RunExits(Init<T>(threads, workers), run, t);
  }

  lemma {:induction false} JoinedForGood<T>(s: State<T>, run: seq<Move<T>>)
    requires Legal(s, run) && s.workers <= |s.pc|
    ensures AllExited(s.pc, s.workers) || StopReturned(s, run) ==> AllExited(After(s, run).pc, s.workers)
    decreases |run|
  {
    hide Next;
    if run != [] {
      var m := run[0];
      var r := Next(s, m.thread, m.event);
      NextWorkers(s, m.thread, m.event);
      if AllExited(s.pc, s.workers) {
        forall i | 0 <= i < |r.pc| && i < s.workers
          ensures r.pc[i] == Exited
        {
          StepExits(s, m, i);
        }
      }
      JoinedForGood(r, run[1..]);
    }
  }

  /** When stop has returned every worker has left its loop, and stays out. */
  lemma StopReturnsLast<T>(threads: nat, workers: nat, run: seq<Move<T>>)
    requires workers <= threads && Legal(Init<T>(threads, workers), run)
    requires StopReturned(Init<T>(threads, workers), run)
    ensures AllExited(After(Init<T>(threads, workers), run).pc, workers)
  {
    JoinedForGood(Init<T>(threads, workers), run);
  }

  // ---- when nothing can move ----------------------------------------------------------

  /** A thread has a step of its own to take: no new call, and no waking for no reason. */
  ghost predicate CanMove<T>(s: State<T>, t: nat) {
    Enabled(s, t, Advance) || exists w :: Enabled(s, t, NotifyOne(w))
  }

  predicate AtRest<T>(p: Pc<T>) { p.Idle? || p.Asleep? || p.Exited? || p.Joining? }

  /**
   * No deadlock: when no thread can move, m_lock is free and every thread is outside the queue or
   * sleeps on it, and it sleeps on a queue that is open and empty.
   */
  lemma NoDeadlock<T>(threads: nat, workers: nat, run: seq<Move<T>>)
    requires workers <= threads && Legal(Init<T>(threads, workers), run)
    ensures var s := After(Init<T>(threads, workers), run);
      (forall t: nat :: !CanMove(s, t)) ==>
        && s.owner == None
        && (forall t :: 0 <= t < |s.pc| ==> AtRest(s.pc[t]))
        && (Sleeper(s.pc) ==> s.d.valid && s.d.queue == [])
        && (forall t :: 0 <= t < |s.pc| && s.pc[t].Joining? ==> !AllExited(s.pc, s.workers))
  {
    InitInv<T>(threads, workers);
    RunKeeps(Init<T>(threads, workers), run);
    var s := After(Init<T>(threads, workers), run);
    if forall t: nat :: !CanMove(s, t) { Resting(s); }
  }

  lemma Resting<T>(s: State<T>)
    requires Inv(s) && forall t: nat :: !CanMove(s, t)
    ensures s.owner == None
    ensures forall t :: 0 <= t < |s.pc| ==> AtRest(s.pc[t])
    ensures Sleeper(s.pc) ==> s.d.valid && s.d.queue == []
    ensures forall t :: 0 <= t < |s.pc| && s.pc[t].Joining? ==> !AllExited(s.pc, s.workers)
  {
    hide Count, Covered, History;
    if s.owner.Some? {
      SectionMoves(s);
    }
    forall t | 0 <= t < |s.pc|
      ensures AtRest(s.pc[t]) && (s.pc[t].Joining? ==> !AllExited(s.pc, s.workers))
    {
      assert !CanMove(s, t);
      assert Holding(s.pc[t]) <==> OwnerIs(s.owner, t);
    }
    if Sleeper(s.pc) { NobodyWoken(s); }
  }

  lemma SectionMoves<T>(s: State<T>)
    requires Inv(s) && s.owner.Some?
    ensures exists t: nat :: CanMove(s, t)
  {
    hide Inv, Next;
    var t := s.owner.value;
    SectionEnds(s, t);
    HolderEvents(s, t);
    var e :| Enabled(s, t, e);
    assert CanMove(s, t);
  }

  lemma HolderEvents<T>(s: State<T>, t: nat)
    requires Inv(s) && s.owner == Some(t)
    ensures forall e :: Enabled(s, t, e) ==> e.Advance? || e.NotifyOne?
  {
    hide Count, Covered, History;
    assert Holding(s.pc[t]) <==> OwnerIs(s.owner, t);
  }

  lemma NobodyWoken<T>(s: State<T>)
    requires Inv(s) && s.owner == None && Sleeper(s.pc) && forall t :: 0 <= t < |s.pc| ==> AtRest(s.pc[t])
    ensures s.d.valid && s.d.queue == []
  {
    hide Exclusive, Roles;
    CountNone(s.pc, Woken);
  }
}
