/**
 * When the bucket locks are granted and when nothing can move, over every interleaving: any number of
 * readers or one writer gets in, sessions take the lock they asked for, and the table mutex that is
 * held while blocking on a bucket can stop everything (librdb/src/hashtable.cpp:62-164).
 */
module LockGrants {

  import opened Options
  import opened BucketLocks

  // ---- who is let in ------------------------------------------------------------------

  /** No session holds the bucket in a way that conflicts with the mode. */
  predicate Open(pc: seq<Pc>, m: Mode, b: nat) {
    Count(pc, Write, b) == 0 && (m.Write? ==> Count(pc, Read, b) == 0)
  }

  /** A session that has a lock before it blocks exactly while the bucket is held in conflict. */
  lemma GrantedExactly(s: State, t: nat)
    requires Inv(s) && t < |s.pc| && s.pc[t].Attached?
    ensures Enabled(s, t, Advance) <==> Open(s.pc, s.pc[t].mode, s.pc[t].b)
  {
    hide Count, Homes;
    LockIsThere(s, t);
    assert BucketAt(s, s.pc[t].b);
  }

  /** The same over runs. */
  lemma GrantedInRun(buckets: nat, sessions: nat, run: seq<Move>, t: nat)
    requires Legal(Init(buckets, sessions), run)
    ensures var s := After(Init(buckets, sessions), run);
      t < |s.pc| && s.pc[t].Attached? ==>
        (Enabled(s, t, Advance) <==> Open(s.pc, s.pc[t].mode, s.pc[t].b))
  {
    InitInv(buckets, sessions);
    RunKeeps(Init(buckets, sessions), run);
    var s := After(Init(buckets, sessions), run);
    hide Inv, Legal, After, Init, Enabled, Open;
    if t < |s.pc| && s.pc[t].Attached? { GrantedExactly(s, t); }
  }

  lemma {:induction false} AfterOn(s: State, a: seq<Move>, b: seq<Move>)
    requires Legal(s, a) && Legal(After(s, a), b)
    ensures Legal(s, a + b) && After(s, a + b) == After(After(s, a), b)
    decreases |a|
  {
    hide Enabled, Next;
    if a == [] {
      assert a + b == b;
    } else {
      assert (a + b)[1..] == a[1..] + b;
      AfterOn(Next(s, a[0].session, a[0].event), a[1..], b);
    }
  }

  lemma OneMove(s: State, m: Move)
    requires Enabled(s, m.session, m.event)
    ensures Legal(s, [m]) && After(s, [m]) == Next(s, m.session, m.event)
  {
    hide Enabled, Next;
    assert [m][1..] == [];
  }

  /** The moves of a session from its call until it holds the bucket. */
  function Acquire(t: nat, m: Mode, b: nat): (run: seq<Move>) {
    [Move(t, Call(m, b))] + [Move(t, Advance)] + [Move(t, Advance)] + [Move(t, Advance)] + [Move(t, Advance)]
  }

  /** One step of a session that does not block. */
  lemma Steps(s: State, run: seq<Move>, t: nat, p: Pc)
    requires Inv(s) && Legal(s, run) && t < |s.pc| && After(s, run).pc == s.pc[t := p] && !p.Idle?
    requires p.Attached? ==> Open(s.pc[t := p], p.mode, p.b)
    requires p.Wants? || p.Returns? ==> After(s, run).owner == None
    ensures Legal(s, run + [Move(t, Advance)])
    ensures var r := After(s, run + [Move(t, Advance)]);
      r.pc == s.pc[t := Goto(p)] && r.owner == OwnerAfter(After(s, run).owner, t, p)
  {
    hide Open, Effect;
    RunKeeps(s, run);
    var u := After(s, run);
    assert u.pc[t] == p;
    StepsHere(u, t);
    OneMove(u, Move(t, Advance));
    AfterOn(s, run, [Move(t, Advance)]);
    assert s.pc[t := p][t := Goto(p)] == s.pc[t := Goto(p)];
  }

  lemma StepsHere(s: State, t: nat)
    requires Inv(s) && t < |s.pc| && !s.pc[t].Idle?
    requires s.pc[t].Attached? ==> Open(s.pc, s.pc[t].mode, s.pc[t].b)
    requires s.pc[t].Wants? || s.pc[t].Returns? ==> s.owner == None
    ensures Enabled(s, t, Advance)
  {
    hide Open, Homes, Buckets;
    if s.pc[t].Attached? { GrantedExactly(s, t); }
    assert s.pc[t].Left? || s.pc[t].b < |s.d.entries|;
  }

  /** Whenever the mutex is free and nobody conflicts, an idle session gets the bucket in five moves. */
  lemma GetsIn(s: State, t: nat, m: Mode, b: nat)
    requires Inv(s) && s.owner == None && t < |s.pc| && s.pc[t].Idle? && b < |s.d.entries| && Open(s.pc, m, b)
    ensures Legal(s, Acquire(t, m, b))
    ensures After(s, Acquire(t, m, b)).pc == s.pc[t := Holds(m, b)] && After(s, Acquire(t, m, b)).owner == None
  {
    hide Inv, Legal, After, Open;
    var call := Move(t, Call(m, b));
    var step := Move(t, Advance);
    OneMove(s, call);
    Steps(s, [call], t, Wants(m, b));
    Steps(s, [call] + [step], t, Entered(m, b));
    StillOpen(s.pc, t, m, b);
    Steps(s, [call] + [step] + [step], t, Attached(m, b));
    Steps(s, [call] + [step] + [step] + [step], t, Granted(m, b));
  }

  lemma StillOpen(pc: seq<Pc>, t: nat, m: Mode, b: nat)
    requires t < |pc| && pc[t].Idle? && Open(pc, m, b)
    ensures Open(pc[t := Attached(m, b)], m, b)
  {
    CountUpdate(pc, Read, b, t, Attached(m, b));
    CountUpdate(pc, Write, b, t, Attached(m, b));
  }

  /** A session that holds a bucket gives it back in five moves when the mutex is free. */
  function Release(t: nat): (run: seq<Move>) {
    [] + [Move(t, Advance)] + [Move(t, Advance)] + [Move(t, Advance)] + [Move(t, Advance)] + [Move(t, Advance)]
  }

  lemma GetsOut(s: State, t: nat)
    requires Inv(s) && s.owner == None && t < |s.pc| && s.pc[t].Holds?
    ensures Legal(s, Release(t)) && After(s, Release(t)).pc == s.pc[t := Idle] && After(s, Release(t)).owner == None
  {
    hide Inv, Legal, Open, Next;
    var m, b, step := s.pc[t].mode, s.pc[t].b, Move(t, Advance);
    NoMove(s);
    assert s.pc[t := s.pc[t]] == s.pc;
    hide After;
    Steps(s, [], t, Holds(m, b));
    Steps(s, [] + [step], t, Returns(m, b));
    Steps(s, [] + [step] + [step], t, Reentered(m, b));
    Steps(s, [] + [step] + [step] + [step], t, Dropped(m, b));
    Steps(s, [] + [step] + [step] + [step] + [step], t, Left);
  }

  lemma NoMove(s: State)
    ensures Legal(s, []) && After(s, []) == s
  {
  }

  /** Readers of a bucket, one after the other. */
  function Readers(n: nat, b: nat): (run: seq<Move>) {
    if n == 0 then [] else Readers(n - 1, b) + Acquire(n - 1, Read, b)
  }

  /** Any number of sessions can read one bucket at a time. */
  lemma {:induction false} ManyReaders(buckets: nat, sessions: nat, b: nat, n: nat)
    requires b < buckets && n <= sessions
    ensures Legal(Init(buckets, sessions), Readers(n, b))
    ensures var s := After(Init(buckets, sessions), Readers(n, b));
      && |s.pc| == sessions && s.owner == None
      && forall i :: 0 <= i < sessions ==> s.pc[i] == if i < n then Holds(Read, b) else Idle
  {
    hide Legal, After, Inv;
    var i := Init(buckets, sessions);
    NoMove(i);
    if n > 0 {
      ManyReaders(buckets, sessions, b, n - 1);
      InitInv(buckets, sessions);
      var s := After(i, Readers(n - 1, b));
      RunKeeps(i, Readers(n - 1, b));
      EntriesKept(i, Readers(n - 1, b));
      NoWriters(s.pc, b);
      GetsIn(s, n - 1, Read, b);
      AfterOn(i, Readers(n - 1, b), Acquire(n - 1, Read, b));
    }
  }

  lemma NoWriters(pc: seq<Pc>, b: nat)
    requires forall i :: 0 <= i < |pc| ==> !HasLock(pc[i], Write, b)
    ensures Open(pc, Read, b)
  {
    CountNone(pc, Write, b);
  }

  // ---- sessions take what they asked for ----------------------------------------------

  datatype Wish = Nothing | Wish(mode: Mode, b: nat)

  /** What session t last asked for. */
  function Asked(run: seq<Move>, t: nat, before: Wish): (w: Wish) {
    if run == [] then before
    else
      var m := run[0];
      Asked(run[1..], t, if m.session == t && m.event.Call? then Wish(m.event.mode, m.event.b) else before)
  }

  predicate Heeds(p: Pc, w: Wish) { p.Idle? || p.Left? || w == Wish(p.mode, p.b) }

  lemma {:induction false} RunHeeds(s: State, run: seq<Move>, t: nat, before: Wish)
    requires Legal(s, run) && t < |s.pc| && Heeds(s.pc[t], before)
    ensures t < |After(s, run).pc| && Heeds(After(s, run).pc[t], Asked(run, t, before))
    decreases |run|
  {
    hide Effect, OwnerAfter;
    if run != [] {
      var m := run[0];
      var now := if m.session == t && m.event.Call? then Wish(m.event.mode, m.event.b) else before;
      RunHeeds(Next(s, m.session, m.event), run[1..], t, now);
    }
  }

  /** In every reachable state a session waits for, holds or returns the bucket and mode it last asked for. */
  lemma AsAsked(buckets: nat, sessions: nat, run: seq<Move>, t: nat)
    requires Legal(Init(buckets, sessions), run) && t < sessions
    ensures var s := After(Init(buckets, sessions), run);
      t < |s.pc| && Heeds(s.pc[t], Asked(run, t, Nothing))
  {
    RunHeeds(Init(buckets, sessions), run, t, Nothing);
  }

  // ---- when nothing can move ----------------------------------------------------------

  /** The mutex is held by a session that blocks on a bucket, and nobody can leave that bucket without
      the mutex. */
  predicate Blocked(s: State) {
    && s.owner.Some? && s.owner.value < |s.pc|
    && var p := s.pc[s.owner.value];
    && p.Attached? && !Open(s.pc, p.mode, p.b)
    && forall i :: 0 <= i < |s.pc| && i != s.owner.value ==> s.pc[i].Idle? || s.pc[i].Wants? || s.pc[i].Returns?
  }

  /** No session can go on exactly when all are idle or the table is blocked. */
  lemma StuckExactly(s: State)
    requires Inv(s)
    ensures (forall t: nat :: !Enabled(s, t, Advance)) <==>
      (forall i :: 0 <= i < |s.pc| ==> s.pc[i].Idle?) || Blocked(s)
  {
    hide Homes, Buckets, Open;
    forall t: nat | t < |s.pc|
      ensures Enabled(s, t, Advance) <==>
        !s.pc[t].Idle? && (s.pc[t].Wants? || s.pc[t].Returns? ==> s.owner == None)
        && (s.pc[t].Attached? ==> Open(s.pc, s.pc[t].mode, s.pc[t].b))
      ensures InMutex(s.pc[t]) <==> OwnerIs(s.owner, t)
    {
      if s.pc[t].Attached? { GrantedExactly(s, t); }
      assert s.pc[t].Idle? || s.pc[t].Left? || s.pc[t].b < |s.d.entries|;
      assert InMutex(s.pc[t]) <==> OwnerIs(s.owner, t);
    }
    hide Enabled;
    if s.owner == None && exists i :: 0 <= i < |s.pc| && !s.pc[i].Idle? {
      var i :| 0 <= i < |s.pc| && !s.pc[i].Idle?;
      assert Enabled(s, i, Advance);
    }
    if s.owner.Some? && !Blocked(s) {
      var o := s.owner.value;
      assert OwnerIs(s.owner, o);
      if Enabled(s, o, Advance) {
      } else {
        var i :| 0 <= i < |s.pc| && i != o && !(s.pc[i].Idle? || s.pc[i].Wants? || s.pc[i].Returns?);
        assert !OwnerIs(s.owner, i);
        assert Enabled(s, i, Advance);
      }
    }
  }

  /** Once blocked, always blocked: new calls only join the queue. */
  lemma {:induction false} BlockedStays(s: State, run: seq<Move>)
    requires Inv(s) && Blocked(s) && Legal(s, run)
    ensures Blocked(After(s, run)) && forall i :: 0 <= i < |run| ==> run[i].event.Call?
    decreases |run|
  {
    if run != [] {
      var m := run[0];
      StuckExactly(s);
      assert !Enabled(s, m.session, Advance);
      BlockedCall(s, m.session, m.event);
      StepInv(s, m.session, m.event);
      hide Inv, Blocked, Enabled, Next;
      BlockedStays(Next(s, m.session, m.event), run[1..]);
      assert forall i :: 0 < i < |run| ==> run[i] == run[1..][i - 1];
    }
  }

  lemma BlockedCall(s: State, t: nat, e: Event)
    requires Blocked(s) && Enabled(s, t, e) && e.Call?
    ensures Blocked(Next(s, t, e))
  {
    hide Count;
    var p := s.pc[s.owner.value];
    CountUpdate(s.pc, Read, p.b, t, Wants(e.mode, e.b));
    CountUpdate(s.pc, Write, p.b, t, Wants(e.mode, e.b));
  }

  /** A reader, a writer that waits for it with the mutex, and the reader wanting to leave. */
  function BlockingRun(b: nat): (run: seq<Move>) {
    Acquire(0, Read, b) + [Move(1, Call(Write, b))] + [Move(1, Advance)] + [Move(1, Advance)] + [Move(0, Advance)]
  }

  lemma Extends(s: State, run: seq<Move>, m: Move)
    requires Legal(s, run) && Enabled(After(s, run), m.session, m.event)
    ensures Legal(s, run + [m]) && After(s, run + [m]) == Next(After(s, run), m.session, m.event)
  {
    hide Enabled, Next;
    OneMove(After(s, run), m);
    AfterOn(s, run, [m]);
  }

  /** Two sessions on one bucket can block the table for good. */
  lemma CanBlock(buckets: nat, sessions: nat, b: nat)
    requires b < buckets && sessions >= 2
    ensures Legal(Init(buckets, sessions), BlockingRun(b))
    ensures Blocked(After(Init(buckets, sessions), BlockingRun(b)))
  {
    hide Legal, After, Inv, Open, Blocked;
    var i, run := Init(buckets, sessions), Acquire(0, Read, b);
    InitInv(buckets, sessions);
    NoWriters(i.pc, b);
    GetsIn(i, 0, Read, b);
    RunKeeps(i, run);
    EntriesKept(i, run);
    var s := After(i, run);
    Extends(i, run, Move(1, Call(Write, b)));
    run := run + [Move(1, Call(Write, b))];
    Extends(i, run, Move(1, Advance));
    run := run + [Move(1, Advance)];
    EntriesKept(i, run);
    Extends(i, run, Move(1, Advance));
    run := run + [Move(1, Advance)];
    EntriesKept(i, run);
    Extends(i, run, Move(0, Advance));
    BlockedHere(After(i, run + [Move(0, Advance)]), b);
  }

  lemma BlockedHere(s: State, b: nat)
    requires |s.pc| >= 2 && s.pc[0] == Returns(Read, b) && s.pc[1] == Attached(Write, b) && s.owner == Some(1)
    requires forall i :: 2 <= i < |s.pc| ==> s.pc[i].Idle?
    ensures Blocked(s)
  {
    CountPositive(s.pc, Read, b, 0);
  }
}
